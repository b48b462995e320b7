/** The text of a position: its indices in decimal, each in brackets. */
module PositionText {
  const DIGITS: string := "0123456789"

  /** `std::to_string` of an unsigned number. */
  function Decimal(n: nat): (s: string)
    ensures ']' !in s && |s| > 0
    ensures |s| == 1 <==> n < 10
  {
    if n < 10 then [DIGITS[n]] else Decimal(n / 10) + [DIGITS[n % 10]]
  }

  /** The number a decimal text denotes, by the character codes. */
  function Parse(s: string): int {
    if s == "" then 0 else 10 * Parse(s[..|s| - 1]) + (s[|s| - 1] as int - 0x30)
  }

  /** The text is the number in decimal: digits only, no leading zero, and the value is the number. */
  lemma {:induction false} DecimalDenotes(n: nat)
    ensures Parse(Decimal(n)) == n
    ensures forall c :: c in Decimal(n) ==> '0' <= c <= '9'
    ensures n > 0 ==> Decimal(n)[0] != '0'
  {
    DigitCode(n % 10);
    if n >= 10 {
      DecimalDenotes(n / 10);
      assert Decimal(n)[..|Decimal(n)| - 1] == Decimal(n / 10);
    } else {
      assert Decimal(n)[..0] == "";
    }
  }

  lemma DigitCode(d: nat)
    requires d < 10
    ensures DIGITS[d] as int == 0x30 + d && '0' <= DIGITS[d] <= '9'
  {
    var s := DIGITS;
    assert s[0] == '0' && s[1] == '1' && s[2] == '2' && s[3] == '3' && s[4] == '4';
    assert s[5] == '5' && s[6] == '6' && s[7] == '7' && s[8] == '8' && s[9] == '9';
  }

  /** How a position is written. */
  lemma WrittenPosition()
    ensures Bracketed([3, 12]) == "[3][12]"
  {
    assert [3, 12][1..] == [12] && [12][1..] == [];
    assert DIGITS[3] == '3' && DIGITS[1] == '1' && DIGITS[2] == '2';
    assert Decimal(3) == "3" && Decimal(1) == "1";
    assert Decimal(12) == Decimal(1) + [DIGITS[2]] == "12";
    assert Bracketed([12]) == "[12]";
  }

  function Bracketed(positions: seq<nat>): string {
    if positions == [] then "" else Bracket(positions[0]) + Bracketed(positions[1..])
  }

  function Bracket(n: nat): string {
    "[" + Decimal(n) + "]"
  }

  lemma DecimalInjective(m: nat, n: nat)
    requires Decimal(m) == Decimal(n)
    ensures m == n
  {
    DecimalDenotes(m);
    DecimalDenotes(n);
  }

  /** The text determines the indices: no two lists are written alike. */
  lemma {:induction false} BracketedInjective(a: seq<nat>, b: seq<nat>)
    requires Bracketed(a) == Bracketed(b)
    ensures a == b
    decreases |a|
  {
    hide Decimal;
    if a != [] && b != [] {
      var x, y, u, v := Decimal(a[0]), Decimal(b[0]), Bracketed(a[1..]), Bracketed(b[1..]);
      FirstBracket(x, y, u, v);
      DecimalInjective(a[0], b[0]);
      BracketedInjective(a[1..], b[1..]);
      assert a == [a[0]] + a[1..] && b == [b[0]] + b[1..];
    }
  }

  /** The first closing bracket ends the first index. */
  lemma FirstBracket(x: string, y: string, u: string, v: string)
    requires ']' !in x && ']' !in y
    requires "[" + x + "]" + u == "[" + y + "]" + v
    ensures x == y && u == v
  {
    if |x| < |y| {
      BracketWithin(x, y, u, v);
    } else if |y| < |x| {
      BracketWithin(y, x, v, u);
    } else {
      var s, t := "[" + x + "]" + u, "[" + y + "]" + v;
      assert x == s[1..|x| + 1] && y == t[1..|y| + 1];
      assert u == s[|x| + 2..] && v == t[|y| + 2..];
    }
  }

  lemma BracketWithin(x: string, y: string, u: string, v: string)
    requires |x| < |y| && ']' !in y
    ensures "[" + x + "]" + u != "[" + y + "]" + v
  {
    assert ("[" + x + "]" + u)[|x| + 1] == ']' && ("[" + y + "]" + v)[|x| + 1] == y[|x|];
  }

  lemma NothingBracketed()
    ensures Bracketed([]) == ""
  {
  }

  /** Writing one index before the others. */
  lemma BracketedCons(n: nat, positions: seq<nat>)
    ensures Bracketed([n] + positions) == Bracket(n) + Bracketed(positions)
  {
    assert ([n] + positions)[1..] == positions;
  }
}
