/**
  The two writers of the binary values format: the JavaScript calculator, which
  fills a buffer of 32-bit words, and the native one, which writes 64-bit limbs.
 */
module WitnessFile {
  import opened Products
  import opened Words
  import opened Modulus
  import opened RawField
  import opened Elements
  import opened WordArrays
  import opened WordBuffers

  // Words and bytes of a field element.
  const N32: nat := 8
  const N8: nat := 32

  // The bytes w, t, n, s, first one lowest.
  const MAGIC: Word32 := 0x77 + 0x100 * 0x74 + 0x1_0000 * 0x6e + 0x100_0000 * 0x73

  ghost predicate Canonical(values: seq<nat>) {
    |values| < RADIX && forall k :: 0 <= k < |values| ==> values[k] < Q
  }

  lemma FitsEightWords(v: nat)
    requires v < Q || v == Q
    ensures v < RadixPower(N32)
  {
    assert RadixPower(4) == RADIX * (RADIX * (RADIX * RADIX));
    assert RadixPower(8) == RADIX * (RADIX * (RADIX * (RADIX * RadixPower(4))));
  }

  // ---- hexadecimal strings -----------------------------------------------------------------------------

  type Hex = x: nat | x < 16

  /** `toString(16)`: no leading zeros, and "0" for zero. */
  function HexDigits(n: nat): (s: seq<Hex>)
    ensures s != []
  {
    if n < 16 then [n] else HexDigits(n / 16) + [n % 16]
  }

  /** `parseInt(s, 16)` stored into a word; the empty string gives NaN, which is stored as 0. */
  function ParseHex(s: seq<Hex>): nat {
    if s == [] then 0 else ParseHex(s[..|s| - 1]) * 16 + s[|s| - 1]
  }

  /** `slice`, which clamps both ends to the string. */
  function Slice(s: seq<Hex>, from: nat, to: nat): seq<Hex>
    requires from <= to
  {
    var f := if from < |s| then from else |s|;
    var t := if to < |s| then to else |s|;
    s[f..t]
  }

  /** 680 is written 2a8, and slices are cut off at the end. */
  lemma HexExample()
    ensures HexDigits(680) == [2, 10, 8] && ParseHex([2, 10, 8]) == 680
    ensures Slice([2, 10, 8], 0, 2) == [2, 10] && Slice([2, 10, 8], 2, 8) == [8] && Slice([2, 10, 8], 8, 16) == []
  {
    assert HexDigits(2) == [2] && HexDigits(42) == [2] + [10] && HexDigits(680) == HexDigits(42) + [8];
    ParseInverts(680);
  }

  lemma {:induction false} ParseBelow(s: seq<Hex>, k: nat)
    requires |s| <= k <= 8
    ensures ParseHex(s) < Pow16(k)
  {
    if s != [] {
      ParseBelow(s[..|s| - 1], k - 1);
    }
  }

  function Pow16(k: nat): (p: nat)
    ensures p >= 1
  {
    if k == 0 then 1 else 16 * Pow16(k - 1)
  }

  lemma Pow16Eight()
    ensures Pow16(8) == RADIX && Pow16(9) == 16 * RADIX && Pow16(10) == 256 * RADIX
  {
    assert Pow16(1) == 16;
    assert Pow16(2) == 16 * Pow16(1) && Pow16(3) == 16 * Pow16(2) && Pow16(4) == 16 * Pow16(3);
    assert Pow16(5) == 16 * Pow16(4) && Pow16(6) == 16 * Pow16(5) && Pow16(7) == 16 * Pow16(6);
    assert Pow16(8) == 16 * Pow16(7) && Pow16(9) == 16 * Pow16(8);
  }

  /** The two words written for a length: characters 0..8 of its hexadecimal form, then 8..16. */
  function ScriptLength(n: nat): (r: seq<Word32>)
    ensures |r| == 2
  {
    var s := HexDigits(n);
    Pow16Eight();
    ParseBelow(Slice(s, 0, 8), 8);
    ParseBelow(Slice(s, 8, 16), 8);
    [ParseHex(Slice(s, 0, 8)), ParseHex(Slice(s, 8, 16))]
  }

  lemma {:induction false} ParseInverts(n: nat)
    ensures ParseHex(HexDigits(n)) == n
  {
    if n >= 16 {
      ParseInverts(n / 16);
      assert HexDigits(n)[..|HexDigits(n)| - 1] == HexDigits(n / 16);
    }
  }

  /** A number has k digits exactly when it lies between the powers. */
  lemma {:induction false} DigitCount(n: nat, k: nat)
    requires k > 0
    ensures |HexDigits(n)| <= k <==> n < Pow16(k)
  {
    if n >= 16 && k > 1 {
      DigitCount(n / 16, k - 1);
    }
  }

  lemma ScriptLengthShort(n: nat)
    requires n < RADIX
    ensures ScriptLength(n) == [n, 0]
  {
    Pow16Eight();
    DigitCount(n, 8);
    ParseInverts(n);
    var s := HexDigits(n);
    assert Slice(s, 0, 8) == s && Slice(s, 8, 16) == [];
  }

  lemma ParseFew(x: Hex, y: Hex)
    ensures ParseHex([x]) == x && ParseHex([x, y]) == 16 * x + y
  {
    assert [x, y][..1] == [x] && [x][..0] == [];
  }

  lemma ScriptLengthNine(n: nat)
    requires RADIX <= n < 16 * RADIX
    ensures ScriptLength(n) == [n / 16, n % 16]
  {
    Pow16Eight();
    DigitCount(n, 9);
    DigitCount(n, 8);
    ParseInverts(n / 16);
    var s := HexDigits(n);
    assert s == HexDigits(n / 16) + [n % 16];
    assert Slice(s, 0, 8) == HexDigits(n / 16) && Slice(s, 8, 16) == [n % 16];
    ParseFew(n % 16, 0);
  }

  lemma ScriptLengthTen(n: nat)
    requires 16 * RADIX <= n < 256 * RADIX
    ensures ScriptLength(n) == [n / 256, n % 256]
  {
    Pow16Eight();
    DigitCount(n, 10);
    DigitCount(n, 9);
    var m := n / 16;
    ParseInverts(m / 16);
    var top, s := HexDigits(m / 16), HexDigits(n);
    assert n / 256 == m / 16 && n % 256 == 16 * (m % 16) + n % 16;
    assert s == top + [m % 16, n % 16];
    hide HexDigits;
    assert Slice(s, 0, 8) == top && Slice(s, 8, 16) == [m % 16, n % 16];
    ParseFew(m % 16, n % 16);
  }

  /** The little-endian words of a 64-bit length. */
  function NativeLength(n: nat): (r: seq<Word32>)
    requires n < 0x1_0000_0000_0000_0000
    ensures |r| == 2 && LittleEndian(r) == n
  {
    LittleEndianPair(n % RADIX, n / RADIX);
    [n % RADIX, n / RADIX]
  }

  /** The two length fields agree exactly for sections shorter than 2^32 bytes. */
  lemma LengthsAgree(count: nat)
    requires count < RADIX
    ensures ScriptLength(N8 * count) == NativeLength(N8 * count) <==> N8 * count < RADIX
  {
    hide ScriptLength;
    var n := N8 * count;
    LowDigits(count);
    if n < RADIX {
      ScriptLengthShort(n);
    } else if n < 16 * RADIX {
      ScriptLengthNine(n);
      assert NativeLength(n)[1] != [n / 16, n % 16][1];
    } else {
      ScriptLengthTen(n);
      assert NativeLength(n)[1] != [n / 256, n % 256][1];
    }
  }

  lemma LowDigits(count: nat)
    ensures N8 * count % 16 == 0 && N8 * count % 256 == 32 * (count % 8)
  {
    var q, r := count / 8, count % 8;
    assert N8 * count == 256 * q + 32 * r;
  }

  /** A 64-bit hash, padded to sixteen digits, is passed on as its high and its low word. */
  lemma HashHalves(h: nat, zeros: nat)
    requires h < 0x1_0000_0000_0000_0000 && zeros + |HexDigits(h)| == 16
    ensures var s := seq(zeros, _ => 0) + HexDigits(h);
            ParseHex(Slice(s, 0, 8)) == h / RADIX && ParseHex(Slice(s, 8, 16)) == h % RADIX
  {
    var s: seq<Hex> := seq(zeros, _ => 0) + HexDigits(h);
    var hi, lo := Slice(s, 0, 8), Slice(s, 8, 16);
    assert s == hi + lo;
    ParsePadded(zeros, HexDigits(h));
    ParseInverts(h);
    ParseAppend(hi, lo);
    Pow16Eight();
    ParseBelow(lo, 8);
    assert h == ParseHex(hi) * RADIX + ParseHex(lo);
  }

  lemma {:induction false} ParseAppend(s: seq<Hex>, t: seq<Hex>)
    ensures ParseHex(s + t) == ParseHex(s) * Pow16(|t|) + ParseHex(t)
  {
    if t == [] {
      assert s + t == s;
    } else {
      var last := |t| - 1;
      assert (s + t)[..|s + t| - 1] == s + t[..last];
      ParseAppend(s, t[..last]);
      Sixteenfold(ParseHex(s), Pow16(last), ParseHex(t[..last]), ParseHex(s + t[..last]));
    }
  }

  lemma Sixteenfold(x: nat, p: nat, u: nat, v: nat)
    requires v == x * p + u
    ensures 16 * v == x * (16 * p) + 16 * u
  {
    Associate(16, x, p);
  }

  lemma {:induction false} ParsePadded(zeros: nat, s: seq<Hex>)
    ensures ParseHex(seq(zeros, _ => 0) + s) == ParseHex(s)
  {
    ParseZeros(zeros);
    ParseAppend(seq(zeros, _ => 0), s);
  }

  lemma {:induction false} ParseZeros(zeros: nat)
    ensures ParseHex(seq(zeros, _ => 0)) == 0
  {
    if zeros > 0 {
      assert seq(zeros, _ => 0 as Hex)[..zeros - 1] == seq(zeros - 1, _ => 0 as Hex);
      ParseZeros(zeros - 1);
    }
  }

  // ---- the file ----------------------------------------------------------------------------------------

  function Cells(values: seq<nat>): (r: seq<Word32>)
    ensures |r| == N32 * |values|
  {
    if values == [] then []
    else Cells(values[..|values| - 1]) + WordsOf(values[|values| - 1], N32)
  }

  /** Magic, version, number of sections, the field section, and the data section up to its length. */
  function Front(length1: seq<Word32>, count: Word32): (r: seq<Word32>)
    requires |length1| == 2
    ensures |r| == N32 + 9
  {
    [MAGIC, 2, 2, 1] + length1 + [N8] + WordsOf(Q, N32) + [count, 2]
  }

  /** The file, given the two words each writer puts for the lengths of the two sections. */
  function Layout(length1: seq<Word32>, length2: seq<Word32>, values: seq<nat>): (r: seq<Word32>)
    requires |length1| == |length2| == 2 && |values| < RADIX
    ensures |r| == N32 * |values| + N32 + 11
  {
    Front(length1, |values|) + length2 + Cells(values)
  }

  function ScriptFile(values: seq<nat>): seq<Word32>
    requires |values| < RADIX
  {
    Layout(ScriptLength(8 + N8), ScriptLength(N8 * |values|), values)
  }

  function NativeFile(values: seq<nat>): seq<Word32>
    requires |values| < RADIX
  {
    Layout(NativeLength(8 + N8), NativeLength(N8 * |values|), values)
  }

  /** Cells have eight words each. */
  lemma {:induction false} CellAt(values: seq<nat>, k: nat)
    requires k < |values|
    ensures Cells(values)[N32 * k..N32 * k + N32] == WordsOf(values[k], N32)
  {
    var last := |values| - 1;
    if k < last {
      CellAt(values[..last], k);
      assert Cells(values)[N32 * k..N32 * k + N32] == Cells(values[..last])[N32 * k..N32 * k + N32];
    }
  }

  lemma CellsOfLayout(length1: seq<Word32>, length2: seq<Word32>, values: seq<nat>)
    requires |length1| == |length2| == 2 && |values| < RADIX
    ensures Layout(length1, length2, values)[N32 + 11..] == Cells(values)
    ensures Layout(length1, length2, values)[N32 + 9..N32 + 11] == length2
  {
    hide Cells, Front;
    var front := Front(length1, |values|);
    Sections(front, length2, Cells(values));
  }

  lemma Sections(a: seq<Word32>, b: seq<Word32>, c: seq<Word32>)
    ensures (a + b + c)[|a| + |b|..] == c && (a + b + c)[|a|..|a| + |b|] == b
  {
  }

  /** The two writers produce the same words exactly when the data section is shorter than 2^32 bytes. */
  lemma FilesAgree(values: seq<nat>)
    requires |values| < RADIX
    ensures ScriptFile(values) == NativeFile(values) <==> N8 * |values| < RADIX
  {
    ScriptLengthShort(8 + N8);
    LengthsAgree(|values|);
    CellsOfLayout(ScriptLength(8 + N8), ScriptLength(N8 * |values|), values);
    CellsOfLayout(NativeLength(8 + N8), NativeLength(N8 * |values|), values);
  }

  /** In either file, cell k read little-endian is value k. */
  lemma CellReadsBack(length1: seq<Word32>, length2: seq<Word32>, values: seq<nat>, k: nat)
    requires |length1| == |length2| == 2 && Canonical(values) && k < |values|
    ensures var pos := N32 + 11 + N32 * k;
            LittleEndian(Layout(length1, length2, values)[pos..pos + N32]) == values[k]
  {
    var file, pos := Layout(length1, length2, values), N32 + 11 + N32 * k;
    CellsOfLayout(length1, length2, values);
    CellAt(values, k);
    assert file[pos..pos + N32] == file[N32 + 11..][N32 * k..N32 * k + N32];
    FitsEightWords(values[k]);
    WordsHoldValue(values[k], N32);
  }

  /**
    The layout, word by word: the bytes w, t, n, s; version 2; two sections. The
    first has id 1 and 40 bytes: the size of an element, the prime, and the
    number of values. The second has id 2, its length, and the values.
   */
  lemma LayoutMeans(length2: seq<Word32>, values: seq<nat>, file: seq<Word32>)
    requires |length2| == 2 && Canonical(values) && file == Layout([40, 0], length2, values)
    ensures && |file| == 8 * |values| + 19
            && file[0] == 'w' as int + 0x100 * 't' as int + 0x1_0000 * 'n' as int + 0x100_0000 * 's' as int
            && file[1] == 2 && file[2] == 2
            && file[3] == 1 && file[4] == 40 && file[5] == 0 && file[6] == 32
            && LittleEndian(file[7..15]) == Q && file[15] == |values|
            && file[16] == 2
            && forall k :: 0 <= k < |values| ==> LittleEndian(file[19 + 8 * k..27 + 8 * k]) == values[k]
    ensures file[17] == length2[0] && file[18] == length2[1]
  {
    var front := Front([40, 0], |values|);
    StartMeans(front, |values|);
    assert file == front + (length2 + Cells(values));
    assert file[..17] == front;
    assert file[7..15] == front[7..15];
    CellsOfLayout([40, 0], length2, values);
    forall k | 0 <= k < |values|
      ensures LittleEndian(file[19 + 8 * k..27 + 8 * k]) == values[k]
    {
      CellReadsBack([40, 0], length2, values, k);
    }
  }

  lemma StartMeans(front: seq<Word32>, count: Word32)
    requires front == Front([40, 0], count)
    ensures |front| == 17 && LittleEndian(front[7..15]) == Q && front[15] == count && front[16] == 2
    ensures front[0] == 'w' as int + 0x100 * 't' as int + 0x1_0000 * 'n' as int + 0x100_0000 * 's' as int
    ensures front[1] == 2 && front[2] == 2 && front[3] == 1 && front[4] == 40 && front[5] == 0 && front[6] == 32
  {
    hide WordsOf;
    FitsEightWords(Q);
    WordsHoldValue(Q, N32);
    assert front[7..15] == WordsOf(Q, N32);
  }

  lemma FirstLength()
    ensures ScriptLength(8 + N8) == [40, 0] == NativeLength(8 + N8)
  {
    ScriptLengthShort(40);
  }

  // ---- the script ----------------------------------------------------------------------------------------

  /** A store to the word after those stored so far. */
  method StoreNext(buff32: WordBuffer, i: nat, v: Word32)
    requires buff32.Valid() && InOrder(buff32.log) && |buff32.log| == i < buff32.words.Length
    modifies buff32, buff32.words
    ensures buff32.Valid() && InOrder(buff32.log) && |buff32.log| == i + 1
    ensures Stored(buff32.log) == old(Stored(buff32.log)) + [v]
  {
    buff32.Store(i, v);
  }

  lemma EmptyLog()
    ensures InOrder([]) && Stored([]) == []
  {
  }

  /** The loop copying a value from the shared memory, one word per iteration. */
  method CopyShared(buff32: WordBuffer, pos: nat, shared: seq<Word32>)
    requires buff32.Valid() && InOrder(buff32.log) && |buff32.log| == pos
    requires |shared| == N32 && pos + N32 <= buff32.words.Length
    modifies buff32, buff32.words
    ensures buff32.Valid() && InOrder(buff32.log) && |buff32.log| == pos + N32
    ensures Stored(buff32.log) == old(Stored(buff32.log)) + shared
  {
    for j := 0 to N32
      invariant buff32.Valid() && InOrder(buff32.log) && |buff32.log| == pos + j
      invariant Stored(buff32.log) == old(Stored(buff32.log)) + shared[..j]
    {
      StoreNext(buff32, pos + j, shared[j]);
      assert shared[..j + 1] == shared[..j] + [shared[j]];
    }
    assert shared[..N32] == shared;
  }

  ghost function Header(values: seq<nat>): (r: seq<Word32>)
    requires |values| < RADIX
    ensures |r| == N32 + 11 && ScriptFile(values) == r + Cells(values)
  {
    Front(ScriptLength(8 + N8), |values|) + ScriptLength(N8 * |values|)
  }

  /** The words before the prime. */
  method WriteStart(buff32: WordBuffer)
    requires buff32.Valid() && buff32.log == [] && buff32.words.Length >= 7
    modifies buff32, buff32.words
    ensures buff32.Valid() && InOrder(buff32.log) && |buff32.log| == 7
    ensures Stored(buff32.log) == [MAGIC, 2, 2, 1] + ScriptLength(8 + N8) + [N8]
  {
    hide ScriptLength, InOrder, Stored, Replay;
    EmptyLog();
    StoreNext(buff32, 0, MAGIC);
    StoreNext(buff32, 1, 2);
    StoreNext(buff32, 2, 2);
    StoreNext(buff32, 3, 1);
    assert Stored(buff32.log) == [MAGIC, 2, 2, 1];
    var section1 := ScriptLength(8 + N8);
    StoreNext(buff32, 4, section1[0]);
    StoreNext(buff32, 5, section1[1]);
    assert Stored(buff32.log) == [MAGIC, 2, 2, 1] + section1;
    StoreNext(buff32, 6, N8);
  }

  /** The part of `calculateWTNSBin` before the values. */
  method WriteHeader(buff32: WordBuffer, values: seq<nat>) returns (pos: nat)
    requires buff32.Valid() && buff32.log == []
    requires |values| < RADIX && buff32.words.Length >= N32 + 11
    modifies buff32, buff32.words
    ensures buff32.Valid() && InOrder(buff32.log)
    ensures pos == N32 + 11 == |buff32.log| && Stored(buff32.log) == Header(values)
  {
    hide WordsOf, ScriptLength, InOrder, Stored, Replay;
    WriteStart(buff32);
    pos := 7;
    CopyShared(buff32, pos, WordsOf(Q, N32));
    pos := pos + N32;
    ghost var front := Stored(buff32.log);
    StoreNext(buff32, pos, |values|);
    pos := pos + 1;
    StoreNext(buff32, pos, 2);
    pos := pos + 1;
    assert Stored(buff32.log) == front + [|values|, 2];
    var section2 := ScriptLength(N8 * |values|);
    StoreNext(buff32, pos, section2[0]);
    StoreNext(buff32, pos + 1, section2[1]);
    pos := pos + 2;
    assert Stored(buff32.log) == front + [|values|, 2] + section2;
  }

  /**
    `calculateWTNSBin`: the buffer holds the file, and the stores went through
    its words in order, to each exactly once.
   */
  method CalculateWTNSBin(values: seq<nat>) returns (buff32: WordBuffer)
    requires Canonical(values)
    ensures fresh(buff32) && buff32.Valid() && buff32.words[..] == ScriptFile(values)
    ensures |buff32.log| == buff32.words.Length
    ensures forall i :: 0 <= i < buff32.words.Length ==> buff32.log[i] == (i, buff32.words[i]) && StoresTo(buff32.log, i) == 1
    ensures var file := buff32.words[..];
            && |file| == 8 * |values| + 19
            && file[0] == 'w' as int + 0x100 * 't' as int + 0x1_0000 * 'n' as int + 0x100_0000 * 's' as int
            && file[1] == 2 && file[2] == 2
            && file[3] == 1 && file[4] == 40 && file[5] == 0 && file[6] == 32
            && LittleEndian(file[7..15]) == Q && file[15] == |values|
            && file[16] == 2
            && forall k :: 0 <= k < |values| ==> LittleEndian(file[19 + 8 * k..27 + 8 * k]) == values[k]
    ensures 32 * |values| < 0x1_0000_0000 ==> buff32.words[17] == 32 * |values| && buff32.words[18] == 0
  {
    hide WordsOf, Header, ScriptFile, Replay;
    buff32 := new WordBuffer(|values| * N32 + N32 + 11);
    var pos := WriteHeader(buff32, values);
    assert values[..0] == [] && Header(values) + [] == Header(values);
    for i := 0 to |values|
      invariant fresh(buff32.words) && buff32.words.Length == |values| * N32 + N32 + 11
      invariant buff32.Valid() && InOrder(buff32.log)
      invariant pos == N32 + 11 + N32 * i == |buff32.log|
      invariant Stored(buff32.log) == Header(values) + Cells(values[..i])
    {
      CopyShared(buff32, pos, WordsOf(values[i], N32));
      CellsStep(values, i);
      pos := pos + N32;
    }
    assert values[..|values|] == values;
    FilledInOrder(buff32);
    ScriptMeans(values, buff32.words[..]);
    InOrderMeans(buff32.log);
  }

  lemma InOrderMeans(log: seq<Entry>)
    requires InOrder(log)
    ensures forall i :: 0 <= i < |log| ==> log[i] == (i, Stored(log)[i])
  {
  }

  lemma ScriptMeans(values: seq<nat>, file: seq<Word32>)
    requires Canonical(values) && file == ScriptFile(values)
    ensures && |file| == 8 * |values| + 19
            && file[0] == 'w' as int + 0x100 * 't' as int + 0x1_0000 * 'n' as int + 0x100_0000 * 's' as int
            && file[1] == 2 && file[2] == 2
            && file[3] == 1 && file[4] == 40 && file[5] == 0 && file[6] == 32
            && LittleEndian(file[7..15]) == Q && file[15] == |values|
            && file[16] == 2
            && forall k :: 0 <= k < |values| ==> LittleEndian(file[19 + 8 * k..27 + 8 * k]) == values[k]
    ensures 32 * |values| < RADIX ==> file[17] == 32 * |values| && file[18] == 0
  {
    FirstLength();
    LayoutMeans(ScriptLength(N8 * |values|), values, file);
    if 32 * |values| < RADIX {
      ScriptLengthShort(32 * |values|);
    }
  }

  lemma NativeMeans(values: seq<nat>, file: seq<Word32>)
    requires Canonical(values) && file == NativeFile(values)
    ensures && |file| == 8 * |values| + 19
            && file[0] == 'w' as int + 0x100 * 't' as int + 0x1_0000 * 'n' as int + 0x100_0000 * 's' as int
            && file[1] == 2 && file[2] == 2
            && file[3] == 1 && file[4] == 40 && file[5] == 0 && file[6] == 32
            && LittleEndian(file[7..15]) == Q && file[15] == |values|
            && file[16] == 2
            && forall k :: 0 <= k < |values| ==> LittleEndian(file[19 + 8 * k..27 + 8 * k]) == values[k]
    ensures file[17] + 0x1_0000_0000 * file[18] as nat == 32 * |values|
  {
    FirstLength();
    LayoutMeans(NativeLength(N8 * |values|), values, file);
    LittleEndianPair(file[17], file[18]);
    assert NativeLength(N8 * |values|) == [file[17], file[18]];
  }

  lemma CellsStep(values: seq<nat>, i: nat)
    requires i < |values|
    ensures Cells(values[..i + 1]) == Cells(values[..i]) + WordsOf(values[i], N32)
  {
    assert values[..i + 1][..i] == values[..i];
  }

  lemma BackwardsIsReversed(s: seq<Word32>, arr: seq<Word32>)
    requires |s| == |arr|
    requires forall k :: 0 <= k < |arr| ==> s[k] == arr[|arr| - 1 - k]
    ensures s == Reversed(arr)
  {
    forall k | 0 <= k < |arr|
      ensures s[k] == Reversed(arr)[k]
    {
      ReversedAt(arr, k);
    }
  }

  /** `calculateWitness`: each value is copied most significant word first and converted to a number. */
  method CalculateWitness(values: seq<nat>) returns (w: seq<nat>)
    requires Canonical(values)
    ensures w == values
  {
    w := [];
    for i := 0 to |values|
      invariant w == values[..i]
    {
      var shared := WordsOf(values[i], N32);
      var arr := new Word32[N32];
      for j := 0 to N32
        invariant forall k :: N32 - j <= k < N32 ==> arr[k] == shared[N32 - 1 - k]
      {
        arr[N32 - 1 - j] := shared[j];
      }
      BackwardsIsReversed(arr[..], shared);
      var v := FromArray32(arr);
      JoinReversed(shared);
      FitsEightWords(values[i]);
      WordsHoldValue(values[i], N32);
      w := w + [v];
    }
  }

  // ---- inputs --------------------------------------------------------------------------------------------

  /** The remainder of BigInt division, which takes the sign of the dividend. */
  function TruncatedRemainder(n: int, p: nat): int
    requires p > 0
  {
    if n >= 0 then n % p else -((-n) % p)
  }

  /** The canonical residue, for negative numbers too. */
  method Normalize(n: int, prime: nat) returns (res: int)
    requires prime > 0
    ensures 0 <= res < prime && res == n % prime
  {
    res := TruncatedRemainder(n, prime);
    if n < 0 {
      NegativeRemainder(n, prime);
    }
    if res < 0 {
      res := res + prime;
    }
  }

  lemma NegativeRemainder(n: int, p: nat)
    requires p > 0 && n < 0
    ensures n % p == if (-n) % p == 0 then 0 else p - (-n) % p
  {
    var k, r, l, t := (-n) / p, (-n) % p, n / p, n % p;
    assert -n == k * p + r && n == l * p + t;
    SmallMultiple(-(k + l), p, r + t);
  }

  /** Two remainders that add up to a multiple of p add up to 0 or to p. */
  lemma SmallMultiple(e: int, p: nat, t: nat)
    requires p > 0 && e * p == t && t <= 2 * p - 2
    ensures t == 0 || t == p
  {
    if e >= 2 {
      MulMonotone(p, 2, e);
    } else if e < 0 {
      MulMonotone(p, e, -1);
    }
  }

  /** What an input leaves in the shared memory: the words of its residue, at indices exactly 0..8. */
  method WriteInput(n: int, sharedRWMemory: array<Word32>)
    requires sharedRWMemory.Length == N32
    modifies sharedRWMemory
    ensures LittleEndian(sharedRWMemory[..]) == n % Q
  {
    var v := Normalize(n, Q);
    var arrFr := ToArray32(v, N32);
    FitsEightWords(v);
    FitsExactly(arrFr, v, N32);
    for j := 0 to N32
      invariant forall k :: 0 <= k < j ==> sharedRWMemory[k] == arrFr[N32 - 1 - k]
    {
      sharedRWMemory[j] := arrFr[N32 - 1 - j];
    }
    BackwardsIsReversed(sharedRWMemory[..], arrFr);
    WordsHoldValue(v, N32);
  }

  // ---- the native writer ---------------------------------------------------------------------------------

  /** Four limbs as they lie in memory. */
  function LimbWords(limbs: seq<Word>): (r: seq<Word32>)
    requires |limbs| == 4
    ensures |r| == N32
  {
    [limbs[0] % RADIX, limbs[0] / RADIX, limbs[1] % RADIX, limbs[1] / RADIX,
     limbs[2] % RADIX, limbs[2] / RADIX, limbs[3] % RADIX, limbs[3] / RADIX]
  }

  lemma LimbWordsValue(limbs: seq<Word>)
    requires |limbs| == 4
    ensures LimbWords(limbs) == WordsOf(Value(limbs), N32)
  {
    var s := LimbWords(limbs);
    LittleEndianEight(s);
    assert forall k :: 0 <= k < 4 ==> s[2 * k] + RADIX * s[2 * k + 1] == limbs[k];
    WordsOfLittleEndian(s);
  }

  lemma PrimeWords()
    ensures LimbWords([Q0, Q1, Q2, Q3]) == WordsOf(Q, N32)
  {
    LimbWordsValue([Q0, Q1, Q2, Q3]);
    ModulusLimbs();
  }

  lemma LittleEndianEight(s: seq<Word32>)
    requires |s| == N32
    ensures LittleEndian(s) == Value4(s[0] + RADIX * s[1], s[2] + RADIX * s[3], s[4] + RADIX * s[5], s[6] + RADIX * s[7])
  {
    assert s[1..][1..] == s[2..] && s[2..][1..] == s[3..] && s[3..][1..] == s[4..] && s[4..][1..] == s[5..];
    assert s[5..][1..] == s[6..] && s[6..][1..] == s[7..] && s[7..][1..] == [];
    assert LittleEndian(s[7..]) == s[7];
    assert LittleEndian(s[6..]) == s[6] + RADIX * LittleEndian(s[7..]);
    assert LittleEndian(s[5..]) == s[5] + RADIX * LittleEndian(s[6..]);
    assert LittleEndian(s[4..]) == s[4] + RADIX * LittleEndian(s[5..]);
    assert LittleEndian(s[3..]) == s[3] + RADIX * LittleEndian(s[4..]);
    assert LittleEndian(s[2..]) == s[2] + RADIX * LittleEndian(s[3..]);
    assert LittleEndian(s[1..]) == s[1] + RADIX * LittleEndian(s[2..]);
  }

  /** The body of the loop of `writeBinWitness`: a copy is brought to long normal form in place. */
  method SignalWords(v: FrElement, signal: FrElement) returns (words: seq<Word32>)
    requires v != signal && v.longVal != signal.longVal
    requires v.longVal.Length == 4 && signal.WellFormed()
    modifies v, v.longVal
    ensures words == WordsOf(signal.Denotes(), N32)
  {
    hide WordsOf, LimbWords;
    Copy(v, signal);
    ToLongNormal(v, v);
    LimbWordsValue(v.longVal[..]);
    words := LimbWords(v.longVal[..]);
  }

  method NativeHeader(count: Word32) returns (file: seq<Word32>)
    ensures file == Front(NativeLength(8 + N8), count) + NativeLength(N8 * count)
  {
    hide NativeLength, LimbWords, WordsOf;
    PrimeWords();
    file := [MAGIC, 2, 2, 1] + NativeLength(8 + N8) + [N8];
    file := file + LimbWords([Q0, Q1, Q2, Q3]);
    file := file + [count, 2];
    file := file + NativeLength(N8 * count);
  }

  /** `writeBinWitness`: the signals may be in any of the four representations. */
  method WriteBinWitness(signals: seq<FrElement>, ghost values: seq<nat>) returns (file: seq<Word32>)
    requires |signals| == |values| < RADIX
    requires forall k :: 0 <= k < |signals| ==> signals[k].WellFormed() && signals[k].Denotes() == values[k]
    ensures file == NativeFile(values)
    ensures && |file| == 8 * |values| + 19
            && file[0] == 'w' as int + 0x100 * 't' as int + 0x1_0000 * 'n' as int + 0x100_0000 * 's' as int
            && file[1] == 2 && file[2] == 2
            && file[3] == 1 && file[4] == 40 && file[5] == 0 && file[6] == 32
            && LittleEndian(file[7..15]) == Q && file[15] == |values|
            && file[16] == 2
            && forall k :: 0 <= k < |values| ==> LittleEndian(file[19 + 8 * k..27 + 8 * k]) == values[k]
    ensures file[17] + 0x1_0000_0000 * file[18] as nat == 32 * |values|
  {
    hide Front, NativeLength, WordsOf;
    file := NativeHeader(|signals|);
    ghost var header := file;
    var v := new FrElement();
    assert values[..0] == [] && header + [] == header;
    for i := 0 to |signals|
      invariant fresh(v) && fresh(v.longVal) && v.longVal.Length == 4
      invariant file == header + Cells(values[..i])
    {
      var words := SignalWords(v, signals[i]);
      file := file + words;
      CellsStep(values, i);
    }
    assert values[..|values|] == values;
    forall k | 0 <= k < |values|
      ensures values[k] < Q
    {
      assert signals[k].WellFormed();
      ResidueBelow(signals[k].View());
    }
    NativeMeans(values, file);
  }
}
