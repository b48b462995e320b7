/** Numbers as lists of 32-bit words, the form in which values cross the WebAssembly boundary. */
module WordArrays {
  import opened Products

  const RADIX: nat := 0x1_0000_0000

  type Word32 = x: nat | x < 0x1_0000_0000

  function LittleEndian(s: seq<Word32>): nat {
    if s == [] then 0 else s[0] + RADIX * LittleEndian(s[1..])
  }

  lemma LittleEndianPair(x: Word32, y: Word32)
    ensures LittleEndian([x, y]) == x + RADIX * y
  {
    assert [x, y][1..] == [y] && [y][1..] == [];
    assert LittleEndian([y]) == y;
  }

  /** One word is itself, and what follows n words weighs 2^(32 n) times as much. */
  lemma {:induction false} WordsWeigh(s: seq<Word32>, t: seq<Word32>)
    ensures LittleEndian(s + t) == LittleEndian(s) + RadixPower(|s|) * LittleEndian(t)
    ensures |s| == 1 ==> LittleEndian(s) == s[0] && RadixPower(|s|) == 0x1_0000_0000
  {
    if s == [] {
      assert s + t == t;
    } else {
      assert (s + t)[1..] == s[1..] + t;
      WordsWeigh(s[1..], t);
      Associate(RADIX, RadixPower(|s| - 1), LittleEndian(t));
      assert RadixPower(0) == 1;
    }
  }

  /** The n low words of v, least significant first: what `readSharedRWMemory` yields. */
  function WordsOf(v: nat, n: nat): (r: seq<Word32>)
    ensures |r| == n
  {
    if n == 0 then [] else [v % RADIX] + WordsOf(v / RADIX, n - 1)
  }

  function RadixPower(n: nat): nat {
    if n == 0 then 1 else RADIX * RadixPower(n - 1)
  }

  lemma {:induction false} WordsHoldValue(v: nat, n: nat)
    requires v < RadixPower(n)
    ensures LittleEndian(WordsOf(v, n)) == v
  {
    if n > 0 {
      WordsHoldValue(v / RADIX, n - 1);
      assert WordsOf(v, n)[1..] == WordsOf(v / RADIX, n - 1);
    }
  }

  lemma {:induction false} WordsOfLittleEndian(s: seq<Word32>)
    ensures WordsOf(LittleEndian(s), |s|) == s
  {
    if s != [] {
      WordsOfLittleEndian(s[1..]);
    }
  }

  // ---- big-endian arrays ---------------------------------------------------------------------------

  /** Shifting the words of s in behind acc. */
  function Join(acc: nat, s: seq<Word32>): nat
    decreases s
  {
    if s == [] then acc else Join(acc * RADIX + s[0], s[1..])
  }

  /** The first word weighs most: two words are the high and the low half of a 64-bit number. */
  lemma {:induction false} JoinWeighs(acc: nat, s: seq<Word32>)
    ensures Join(acc, s) == acc * RadixPower(|s|) + Join(0, s)
    ensures |s| == 2 ==> Join(0, s) == (s[0] as nat) * 0x1_0000_0000 + s[1]
    decreases s
  {
    if s != [] {
      var p := RadixPower(|s| - 1);
      JoinWeighs(acc * RADIX + s[0], s[1..]);
      JoinWeighs(s[0], s[1..]);
      Regroup(acc, p, s[0]);
      if |s| == 2 {
        assert s[1..][1..] == [] && s[1..] == [s[1]];
      }
    }
  }

  lemma Regroup(acc: nat, p: nat, x: nat)
    ensures (acc * RADIX + x) * p == acc * (RADIX * p) + x * p
  {
    Associate(acc, RADIX, p);
  }

  method FromArray32(arr: array<Word32>) returns (res: nat)
    ensures res == Join(0, arr[..])
  {
    res := 0;
    assert arr[0..] == arr[..];
    for i := 0 to arr.Length
      invariant Join(0, arr[..]) == Join(res, arr[i..])
    {
      assert arr[i..][1..] == arr[i + 1..];
      res := res * RADIX + arr[i];
    }
  }

  /** The shortest list of at least `size` words with the value of n. */
  method ToArray32(n: nat, size: nat) returns (res: seq<Word32>)
    ensures Join(0, res) == n
    ensures |res| >= size && (|res| > size ==> res[0] != 0)
  {
    var rem: nat := n;
    res := [];
    while rem != 0
      invariant Join(rem, res) == n
      invariant res != [] ==> rem != 0 || res[0] != 0
      decreases rem
    {
      assert ([rem % RADIX] + res)[1..] == res;
      res := [rem % RADIX] + res;
      rem := rem / RADIX;
    }
    var i := size - |res|;
    while i > 0
      invariant Join(0, res) == n
      invariant i > 0 ==> |res| + i == size
      invariant i <= 0 ==> |res| >= size
      invariant |res| > size ==> res[0] != 0
    {
      assert ([0] + res)[1..] == res;
      res := [0] + res;
      i := i - 1;
    }
  }

  lemma {:induction false} JoinGrows(acc: nat, s: seq<Word32>, m: nat)
    requires acc >= RadixPower(m)
    ensures Join(acc, s) >= RadixPower(m + |s|)
    decreases s
  {
    if s != [] {
      JoinGrows(acc * RADIX + s[0], s[1..], m + 1);
    }
  }

  function Reversed(s: seq<Word32>): (r: seq<Word32>)
    ensures |r| == |s|
  {
    if s == [] then [] else Reversed(s[1..]) + [s[0]]
  }

  lemma {:induction false} ReversedAt(s: seq<Word32>, k: nat)
    requires k < |s|
    ensures Reversed(s)[k] == s[|s| - 1 - k]
  {
    if k < |s| - 1 {
      ReversedAt(s[1..], k);
    }
  }

  lemma {:induction false} JoinLast(acc: nat, s: seq<Word32>, x: Word32)
    ensures Join(acc, s + [x]) == Join(acc, s) * RADIX + x
    decreases s
  {
    if s == [] {
      assert s + [x] == [x];
      assert [x][1..] == [];
    } else {
      assert (s + [x])[1..] == s[1..] + [x];
      JoinLast(acc * RADIX + s[0], s[1..], x);
    }
  }

  /** Reading a list backwards exchanges the two orders. */
  lemma {:induction false} JoinReversed(s: seq<Word32>)
    ensures Join(0, Reversed(s)) == LittleEndian(s)
  {
    if s != [] {
      JoinReversed(s[1..]);
      JoinLast(0, Reversed(s[1..]), s[0]);
    }
  }

  lemma {:induction false} ReversedTwice(s: seq<Word32>)
    ensures Reversed(Reversed(s)) == s
  {
    forall k | 0 <= k < |s|
      ensures Reversed(Reversed(s))[k] == s[k]
    {
      ReversedAt(Reversed(s), k);
      ReversedAt(s, |s| - 1 - k);
    }
  }

  /** A number below the capacity of `size` words takes exactly `size` words, and only one list does. */
  lemma FitsExactly(res: seq<Word32>, n: nat, size: nat)
    requires Join(0, res) == n && |res| >= size && (|res| > size ==> res[0] != 0)
    requires n < RadixPower(size)
    ensures |res| == size && Reversed(res) == WordsOf(n, size)
  {
    if |res| > size {
      JoinGrows(res[0], res[1..], 0);
      PowerMonotone(size, |res| - 1);
    }
    JoinReversed(Reversed(res));
    ReversedTwice(res);
    WordsOfLittleEndian(Reversed(res));
  }

  lemma {:induction false} PowerMonotone(m: nat, n: nat)
    requires m <= n
    ensures 0 < RadixPower(m) <= RadixPower(n)
    decreases n
  {
    if n > 0 {
      PowerMonotone(if m < n then m else m - 1, n - 1);
    }
  }

  lemma {:induction false} LittleEndianBelow(s: seq<Word32>)
    ensures LittleEndian(s) < RadixPower(|s|)
  {
    if s != [] {
      LittleEndianBelow(s[1..]);
    }
  }

  /** Converting an array to a number and back, at its own size, gives the array. */
  lemma ArrayRoundTrip(arr: seq<Word32>, res: seq<Word32>)
    requires Join(0, res) == Join(0, arr)
    requires |res| >= |arr| && (|res| > |arr| ==> res[0] != 0)
    ensures res == arr
  {
    var back := Reversed(arr);
    ReversedTwice(arr);
    JoinReversed(back);
    LittleEndianBelow(back);
    WordsOfLittleEndian(back);
    FitsExactly(res, Join(0, arr), |arr|);
    ReversedTwice(res);
  }
}
