/**
  Flattening a nested input array into the list of values handed to consecutive signals, and the
  mixed-radix positions the runtime computes for an element of that list.
 */
module Flatten {
  import opened Products
  import opened Bits
  import opened PositionText

  /** An input value: a leaf already converted to a field element, or an array of values. */
  datatype Json<V> = Leaf(v: V) | Arr(elems: seq<Json<V>>)

  // ---- depth-first order ---------------------------------------------------------------------------

  function Leaves<V>(val: Json<V>): seq<V>
    decreases val
  {
    match val
    case Leaf(v) => [v]
    case Arr(elems) => LeavesOfAll(elems)
  }

  function LeavesOfAll<V>(elems: seq<Json<V>>): seq<V>
    decreases elems
  {
    if elems == [] then [] else Leaves(elems[0]) + LeavesOfAll(elems[1..])
  }

  lemma {:induction false} LeavesOfAppend<V>(elems: seq<Json<V>>, last: Json<V>)
    ensures LeavesOfAll(elems + [last]) == LeavesOfAll(elems) + Leaves(last)
  {
    if elems == [] {
      assert elems + [last] == [last];
      assert [last][1..] == [];
    } else {
      assert (elems + [last])[1..] == elems[1..] + [last];
      LeavesOfAppend(elems[1..], last);
    }
  }

  /** The leaves are taken from left to right, at any depth. */
  lemma LeafOrder<V>(x: V, y: V, z: V)
    ensures Leaves(Arr([Leaf(x), Arr([Leaf(y), Leaf(z)])])) == [x, y, z]
  {
    var inner := [Leaf(y), Leaf(z)];
    FirstBlock(inner);
    FirstBlock(inner[1..]);
    var outer := [Leaf(x), Arr(inner)];
    FirstBlock(outer);
    FirstBlock(outer[1..]);
  }

  /** Both `json2FrElements` and `flatArray`: the leaves are pushed behind what the vector holds. */
  method FlattenInto<V>(val: Json<V>, vval: seq<V>) returns (out: seq<V>)
    ensures out == vval + Leaves(val)
    decreases val
  {
    match val
    case Leaf(v) =>
      out := vval + [v];
    case Arr(elems) =>
      out := vval;
      assert elems[..0] == [];
      for i := 0 to |elems|
        invariant out == vval + LeavesOfAll(elems[..i])
      {
        out := FlattenInto(elems[i], out);
        LeavesOfAppend(elems[..i], elems[i]);
        assert elems[..i + 1] == elems[..i] + [elems[i]];
      }
      assert elems[..|elems|] == elems;
  }

  // ---- positions -----------------------------------------------------------------------------------

  ghost predicate Positive(dims: seq<nat>) {
    forall k :: 0 <= k < |dims| ==> dims[k] > 0
  }

  function Product(dims: seq<nat>): nat {
    if dims == [] then 1 else dims[0] * Product(dims[1..])
  }

  /** The last digit is the remainder by the last dimension. */
  function Digits(dims: seq<nat>, index: nat): (r: seq<nat>)
    requires Positive(dims)
    ensures |r| == |dims|
  {
    if dims == [] then []
    else
      var last := |dims| - 1;
      Digits(dims[..last], index / dims[last]) + [index % dims[last]]
  }

  /** Row-major position of a list of indices, the last varying fastest. */
  function RowMajor(dims: seq<nat>, at: seq<nat>): nat
    requires |at| == |dims|
  {
    if dims == [] then 0 else at[0] * Product(dims[1..]) + RowMajor(dims[1..], at[1..])
  }

  ghost predicate InRange(dims: seq<nat>, at: seq<nat>) {
    |at| == |dims| && forall k :: 0 <= k < |dims| ==> at[k] < dims[k]
  }

  /** `generate_position_array`: peel off the dimensions from the last one, prepending the text of each digit. */
  method GeneratePositions(dims: seq<nat>, index: nat) returns (positions: string)
    requires Positive(dims)
    ensures positions == Bracketed(Digits(dims, index))
  {
    hide Bracketed, Bracket, Digits;
    var rest := index;
    positions := "";
    ghost var digits: seq<nat> := [];
    assert dims[..|dims|] == dims;
    NothingBracketed();
    for i := 0 to |dims|
      invariant positions == Bracketed(digits)
      invariant Digits(dims, index) == Digits(dims[..|dims| - i], rest) + digits
    {
      var d := dims[|dims| - 1 - i];
      PeelDigit(dims, |dims| - 1 - i, rest, digits);
      BracketedCons(rest % d, digits);
      positions := Bracket(rest % d) + positions;
      digits := [rest % d] + digits;
      rest := rest / d;
    }
    assert dims[..0] == [] && [] + digits == digits;
  }

  lemma PeelDigit(dims: seq<nat>, k: nat, index: nat, digits: seq<nat>)
    requires Positive(dims) && k < |dims|
    ensures Digits(dims[..k + 1], index) + digits == Digits(dims[..k], index / dims[k]) + ([index % dims[k]] + digits)
  {
    assert dims[..k + 1][..k] == dims[..k];
  }

  lemma OneMore(k: nat, d: nat)
    ensures (k + 1) * d == k * d + d
  {
  }

  lemma Factor(k: int, m: int, d: int)
    ensures k * d + m * d == (k + m) * d
  {
  }

  /** Dividing q * (p * d) + r by d leaves q * p with the quotient of r. */
  lemma DivideTwice(q: nat, r: nat, p: nat, d: nat)
    requires d > 0 && r < p * d
    ensures (q * (p * d) + r) / d == q * p + r / d
    ensures (q * (p * d) + r) % d == r % d
    ensures r / d < p
  {
    var t, w := r / d, q * p + r / d;
    SplitAt(r, d);
    Regroup(q, p, d, t, w);
    DivModUnique(q * (p * d) + r, d, w, r % d);
    QuotientBelow(t, d, p, r);
  }

  lemma Regroup(q: nat, p: nat, d: nat, t: nat, w: nat)
    requires w == q * p + t
    ensures q * (p * d) + d * t == d * w
  {
    Associate(q, p, d);
    Factor(q * p, t, d);
  }

  lemma QuotientBelow(t: nat, d: nat, p: nat, r: nat)
    requires d * t <= r < p * d
    ensures t < p
  {
    if t >= p {
      MulMonotone(d, p, t);
    }
  }

  lemma {:induction false} ProductOfFront(dims: seq<nat>)
    requires dims != []
    ensures Product(dims) == Product(dims[..|dims| - 1]) * dims[|dims| - 1]
  {
    var last := |dims| - 1;
    if last == 0 {
      assert dims[1..] == [] && dims[..last] == [];
    } else {
      ProductOfFront(dims[1..]);
      assert dims[1..][..last - 1] == dims[..last][1..];
      Associate(dims[0], Product(dims[..last][1..]), dims[last]);
    }
  }

  lemma {:induction false} ProductPositive(dims: seq<nat>)
    requires Positive(dims)
    ensures Product(dims) > 0
  {
    if dims != [] {
      ProductPositive(dims[1..]);
      MulMonotone(dims[0], 1, Product(dims[1..]));
    }
  }

  lemma DigitsStep(front: seq<nat>, x: nat, n: nat)
    requires Positive(front) && x > 0
    ensures Positive(front + [x])
    ensures Digits(front + [x], n) == Digits(front, n / x) + [n % x]
  {
    assert (front + [x])[..|front|] == front;
  }

  lemma OneDigit(d: nat, q: nat)
    requires q < d
    ensures Digits([d], q) == [q]
  {
    DivModUnique(q, d, 0, q);
    assert [d] == [] + [d];
    DigitsStep([], d, q);
  }

  lemma AppendAssociates(a: seq<nat>, b: seq<nat>, c: seq<nat>)
    ensures (a + b) + c == a + (b + c)
  {
  }

  /** Both sides of the law below lose the same last digit k. */
  lemma PeelLast(d: nat, front: seq<nat>, x: nat, q: nat, r: nat) returns (t: nat, k: nat)
    requires d > 0 && Positive(front) && x > 0 && r < Product(front + [x])
    ensures Positive([d] + front + [x]) && t < Product(front)
    ensures Digits([d] + front + [x], q * Product(front + [x]) + r) == Digits([d] + front, q * Product(front) + t) + [k]
    ensures Digits(front + [x], r) == Digits(front, t) + [k]
  {
    hide Digits;
    ProductOfFront(front + [x]);
    assert (front + [x])[..|front|] == front;
    hide Product;
    t, k := r / x, r % x;
    DivideTwice(q, r, Product(front), x);
    DigitsStep([d] + front, x, q * (Product(front) * x) + r);
    DigitsStep(front, x, r);
  }

  /** Counting in the first dimension: the digits, read from the front. */
  lemma {:induction false} DigitsFromFront(d: nat, rest: seq<nat>, q: nat, r: nat)
    requires d > 0 && Positive(rest) && q < d && r < Product(rest)
    ensures Positive([d] + rest)
    ensures Digits([d] + rest, q * Product(rest) + r) == [q] + Digits(rest, r)
  {
    if rest == [] {
      OneDigit(d, q);
      assert [d] + rest == [d];
    } else {
      hide Digits, Product;
      var front, x := rest[..|rest| - 1], rest[|rest| - 1];
      assert Positive(front) && x > 0;
      hide Positive;
      AppendAssociates([d], front, [x]);
      assert rest == front + [x];
      var t, k := PeelLast(d, front, x, q, r);
      DigitsFromFront(d, front, q, t);
      AppendAssociates([q], Digits(front, t), [k]);
    }
  }

  /** Below the product of the dimensions, an index is a first digit and a remainder. */
  lemma FirstDigit(dims: seq<nat>, i: nat) returns (q: nat, r: nat)
    requires dims != [] && Positive(dims) && i < Product(dims)
    ensures q < dims[0] && r < Product(dims[1..]) && i == q * Product(dims[1..]) + r
    ensures Digits(dims, i) == [q] + Digits(dims[1..], r)
  {
    q, r := SplitByFirst(i, dims[0], Product(dims[1..]));
    DigitsFromFront(dims[0], dims[1..], q, r);
    assert [dims[0]] + dims[1..] == dims;
  }

  lemma SplitByFirst(i: nat, d: nat, p: nat) returns (q: nat, r: nat)
    requires i < d * p
    ensures q < d && r < p && i == q * p + r
  {
    if p == 0 {
      assert false;
    } else {
      q, r := i / p, i % p;
      SplitAt(i, p);
      if q >= d {
        MulMonotone(p, d, q);
      }
    }
  }

  /** The positions are in range and invert row-major indexing. */
  lemma {:induction false} DigitsInvertRowMajor(dims: seq<nat>, i: nat)
    requires Positive(dims) && i < Product(dims)
    ensures InRange(dims, Digits(dims, i)) && RowMajor(dims, Digits(dims, i)) == i
  {
    if dims != [] {
      var q, r := FirstDigit(dims, i);
      DigitsInvertRowMajor(dims[1..], r);
      assert ([q] + Digits(dims[1..], r))[1..] == Digits(dims[1..], r);
    }
  }

  /** The last dimension varies fastest: element 5 of a 2 by 3 array is in row 1, column 2. */
  lemma LastRow()
    ensures Digits([2, 3], 5) == [1, 2] && Bracketed(Digits([2, 3], 5)) == "[1][2]"
  {
    assert [2, 3] == [2] + [3];
    DigitsStep([2], 3, 5);
    OneDigit(2, 1);
    assert [1, 2][1..] == [2] && [2][1..] == [];
    assert DIGITS[1] == '1' && DIGITS[2] == '2';
    assert Decimal(1) == "1" && Decimal(2) == "2";
    assert Bracketed([2]) == "[2]";
  }

  /** Below the product of the dimensions, different elements get different texts. */
  lemma TextsDiffer(dims: seq<nat>, i: nat, j: nat)
    requires Positive(dims) && i < Product(dims) && j < Product(dims)
    ensures Bracketed(Digits(dims, i)) == Bracketed(Digits(dims, j)) <==> i == j
  {
    if Bracketed(Digits(dims, i)) == Bracketed(Digits(dims, j)) {
      BracketedInjective(Digits(dims, i), Digits(dims, j));
      DigitsInvertRowMajor(dims, i);
      DigitsInvertRowMajor(dims, j);
    }
  }

  /** Every list of indices in range is the position of exactly its row-major index. */
  lemma {:induction false} RowMajorInvertsDigits(dims: seq<nat>, at: seq<nat>)
    requires Positive(dims) && InRange(dims, at)
    ensures RowMajor(dims, at) < Product(dims) && Digits(dims, RowMajor(dims, at)) == at
  {
    if dims != [] {
      RowMajorInvertsDigits(dims[1..], at[1..]);
      var p := Product(dims[1..]);
      MulMonotone(p, at[0] + 1, dims[0]);
      OneMore(at[0], p);
      DigitsFromFront(dims[0], dims[1..], at[0], RowMajor(dims[1..], at[1..]));
      assert [dims[0]] + dims[1..] == dims;
    }
  }

  // ---- flattening meets positions ----------------------------------------------------------------------

  /** A nested array whose shape is the list of dimensions. */
  ghost predicate Rectangular<V>(val: Json<V>, dims: seq<nat>)
    decreases dims
  {
    if dims == [] then val.Leaf?
    else val.Arr? && |val.elems| == dims[0] && forall k :: 0 <= k < |val.elems| ==> Rectangular(val.elems[k], dims[1..])
  }

  /** The leaf at a list of indices. */
  ghost function At<V>(val: Json<V>, dims: seq<nat>, at: seq<nat>): V
    requires Rectangular(val, dims) && InRange(dims, at)
    decreases dims
  {
    if dims == [] then val.v else At(val.elems[at[0]], dims[1..], at[1..])
  }

  /** The first index chooses the row. */
  lemma RowFirst<V>(w: V, x: V, y: V, z: V)
    ensures var rows := Arr([Arr([Leaf(w), Leaf(x)]), Arr([Leaf(y), Leaf(z)])]);
            Rectangular(rows, [2, 2]) && At(rows, [2, 2], [1, 0]) == y && RowMajor([2, 2], [1, 0]) == 2
  {
    assert [2, 2][1..] == [2] && [2][1..] == [] && [1, 0][1..] == [0] && [0][1..] == [];
    assert Product([2]) == 2 * Product([2][1..]) == 2;
    assert RowMajor([2], [0]) == 0;
    assert Rectangular(Arr([Leaf(w), Leaf(x)]), [2]) && Rectangular(Arr([Leaf(y), Leaf(z)]), [2]);
  }

  /** Equal blocks: element q * p + r of the concatenation is element r of block q. */
  lemma {:induction false} InBlock<V>(elems: seq<Json<V>>, p: nat, q: nat, r: nat)
    requires forall k :: 0 <= k < |elems| ==> |Leaves(elems[k])| == p
    requires q < |elems| && r < p
    ensures |LeavesOfAll(elems)| == |elems| * p
    ensures q * p + r < |elems| * p
    ensures LeavesOfAll(elems)[q * p + r] == Leaves(elems[q])[r]
  {
    hide Leaves, LeavesOfAll;
    BlocksLength(elems, p);
    MulMonotone(p, q + 1, |elems|);
    OneMore(q, p);
    FirstBlock(elems);
    if q > 0 {
      InBlock(elems[1..], p, q - 1, r);
      OneMore(q - 1, p);
      assert (q - 1) * p + r == q * p + r - p;
    }
  }

  lemma FirstBlock<V>(elems: seq<Json<V>>)
    requires elems != []
    ensures LeavesOfAll(elems) == Leaves(elems[0]) + LeavesOfAll(elems[1..])
  {
  }

  lemma {:induction false} BlocksLength<V>(elems: seq<Json<V>>, p: nat)
    requires forall k :: 0 <= k < |elems| ==> |Leaves(elems[k])| == p
    ensures |LeavesOfAll(elems)| == |elems| * p
  {
    if elems != [] {
      BlocksLength(elems[1..], p);
      OneMore(|elems| - 1, p);
    }
  }

  lemma {:induction false} LeafCount<V>(val: Json<V>, dims: seq<nat>)
    requires Rectangular(val, dims)
    ensures |Leaves(val)| == Product(dims)
    decreases dims
  {
    if dims != [] {
      forall k | 0 <= k < |val.elems|
        ensures |Leaves(val.elems[k])| == Product(dims[1..])
      {
        LeafCount(val.elems[k], dims[1..]);
      }
      BlocksLength(val.elems, Product(dims[1..]));
    }
  }

  /** Element i of the flattened array is the leaf at the position computed for i, for any rank. */
  lemma {:induction false} FlattenedAtPosition<V>(val: Json<V>, dims: seq<nat>, i: nat)
    requires Rectangular(val, dims) && Positive(dims) && i < Product(dims)
    ensures |Leaves(val)| == Product(dims) && InRange(dims, Digits(dims, i))
    ensures Leaves(val)[i] == At(val, dims, Digits(dims, i))
    decreases dims
  {
    LeafCount(val, dims);
    DigitsInvertRowMajor(dims, i);
    if dims != [] {
      var q, r := FirstDigit(dims, i);
      var p := Product(dims[1..]);
      forall k | 0 <= k < |val.elems|
        ensures |Leaves(val.elems[k])| == p
      {
        LeafCount(val.elems[k], dims[1..]);
      }
      InBlock(val.elems, p, q, r);
      FlattenedAtPosition(val.elems[q], dims[1..], r);
      assert ([q] + Digits(dims[1..], r))[1..] == Digits(dims[1..], r);
    }
  }
}
