/**
  Merkle paths: the circuit's MerkleProof template, the client's verification
  loop, and the tree they are meant for. The hash is any function of two field
  elements; nothing is assumed about it.
 */
module Merkle {
  import opened Words
  import opened Modulus
  import opened Inverses

  type Field = x: nat | x < Q
  type Hash2 = (Field, Field) -> Field

  // ---- the MerkleProof template ----------------------------------------------------------

  /** One output of the multiplexer: c0 + s * (c1 - c0) in the field, as the template constrains it. */
  function Mux(c0: Field, c1: Field, s: Field): Field {
    (c0 + Times(s, (c1 - c0) % Q)) % Q
  }

  /** A boolean selector picks a column. */
  lemma MuxPicks(c0: Field, c1: Field, s: Field)
    requires s <= 1
    ensures Mux(c0, c1, s) == if s == 0 then c0 else c1
  {
    TimesIsProduct(s, (c1 - c0) % Q);
  }

  /** One level: the pair is swapped by the selector, then hashed. */
  function Inputs(cur: Field, sibling: Field, s: Field): (Field, Field) {
    (Mux(cur, sibling, s), Mux(sibling, cur, s))
  }

  function Step(h: Hash2, cur: Field, sibling: Field, s: Field): Field {
    var (left, right) := Inputs(cur, sibling, s);
    h(left, right)
  }

  /** The root a path leads to from a leaf. */
  function PathRoot(h: Hash2, leaf: Field, path: seq<Field>, indices: seq<Field>): Field
    requires |path| == |indices|
    decreases |path|
  {
    if path == [] then leaf
    else PathRoot(h, Step(h, leaf, path[0], indices[0]), path[1..], indices[1..])
  }

  /** The template's constraints on its intermediate signals and its output. */
  ghost predicate MerkleProofHolds(h: Hash2, leaf: Field, path: seq<Field>, indices: seq<Field>,
                                   hashes: seq<Field>, root: Field)
    requires |path| == |indices|
  {
    && |hashes| == |path| + 1
    && hashes[0] == leaf
    && (forall i :: 0 <= i < |path| ==> hashes[i + 1] == Step(h, hashes[i], path[i], indices[i]))
    && root == hashes[|path|]
  }

  /** Whatever intermediate signals satisfy the constraints, the output is the path's root. */
  lemma {:induction false} TemplateComputesRoot(h: Hash2, leaf: Field, path: seq<Field>, indices: seq<Field>,
                                                hashes: seq<Field>, root: Field)
    requires |path| == |indices|
    requires MerkleProofHolds(h, leaf, path, indices, hashes, root)
    ensures root == PathRoot(h, leaf, path, indices)
    decreases |path|
  {
    if path != [] {
      forall i | 0 <= i < |path| - 1
        ensures hashes[1..][i + 1] == Step(h, hashes[1..][i], path[1..][i], indices[1..][i])
      {
        assert hashes[(i + 1) + 1] == Step(h, hashes[i + 1], path[i + 1], indices[i + 1]);
      }
      assert hashes[1] == Step(h, hashes[0], path[0], indices[0]);
      TemplateComputesRoot(h, hashes[1], path[1..], indices[1..], hashes[1..], root);
    }
  }

  /** And the constraints can always be satisfied. */
  lemma {:induction false} TemplateSatisfiable(h: Hash2, leaf: Field, path: seq<Field>, indices: seq<Field>)
      returns (hashes: seq<Field>)
    requires |path| == |indices|
    ensures MerkleProofHolds(h, leaf, path, indices, hashes, PathRoot(h, leaf, path, indices))
    decreases |path|
  {
    if path == [] {
      hashes := [leaf];
    } else {
      var next := Step(h, leaf, path[0], indices[0]);
      var rest := TemplateSatisfiable(h, next, path[1..], indices[1..]);
      hashes := [leaf] + rest;
      forall i | 0 <= i < |path|
        ensures hashes[i + 1] == Step(h, hashes[i], path[i], indices[i])
      {
        if i > 0 {
          assert rest[(i - 1) + 1] == Step(h, rest[i - 1], path[1..][i - 1], indices[1..][i - 1]);
        }
      }
    }
  }

  // ---- binding ------------------------------------------------------------------------------

  /** The pair hashed at a level of an opening. */
  function InputsAt(h: Hash2, leaf: Field, path: seq<Field>, indices: seq<Field>, level: nat): (Field, Field)
    requires |path| == |indices| && level < |path|
    decreases level
  {
    if level == 0 then Inputs(leaf, path[0], indices[0])
    else InputsAt(h, Step(h, leaf, path[0], indices[0]), path[1..], indices[1..], level - 1)
  }

  ghost predicate Collides(h: Hash2, x: (Field, Field), y: (Field, Field)) {
    x != y && h(x.0, x.1) == h(y.0, y.1)
  }

  // The selector 1/2, the only one whose two outputs do not determine the two inputs.
  const MIDDLE: Field := 0x183227397098d014dc2822db40c0ac2e9419f4243cdcb848a1f0fac9f8000001

  /** Selectors that keep the two columns apart; the template asks for no more than a field element. */
  ghost predicate Separating(indices: seq<Field>) {
    forall i :: 0 <= i < |indices| ==> indices[i] != MIDDLE
  }

  ghost predicate Boolean(indices: seq<Field>) {
    forall i :: 0 <= i < |indices| ==> indices[i] <= 1
  }

  lemma BooleanSeparates(indices: seq<Field>)
    requires Boolean(indices)
    ensures Separating(indices)
  {
  }

  lemma MuxValue(c: Field, p: Field, s: Field, a: int)
    requires a == s * (p - c)
    ensures Mux(c, p, s) == (c + a) % Q
  {
    hide Times;
    var d := (p - c) % Q;
    TimesIsProduct(s, d);
    ModRight(s, p - c);
    SumCongruent(c, Times(s, d), a);
  }

  /** One level of the template, for any field element as selector. */
  lemma OneLevel(h: Hash2, leaf: Field, sibling: Field, s: Field)
    ensures PathRoot(h, leaf, [sibling], [s])
            == h((leaf + s * (sibling - leaf)) % Q, (sibling + s * (leaf - sibling)) % Q)
  {
    var l: Field, r: Field := (leaf + s * (sibling - leaf)) % Q, (sibling + s * (leaf - sibling)) % Q;
    MuxValue(leaf, sibling, s, s * (sibling - leaf));
    MuxValue(sibling, leaf, s, s * (leaf - sibling));
    assert [sibling][1..] == [] && [s][1..] == [];
  }

  lemma SumCongruent(c: int, x: int, y: int)
    requires x % Q == y % Q
    ensures (c + x) % Q == (c + y) % Q
  {
    var k := OutputsCongruent(x, y);
    Congruent(c + x, c + y, k);
  }

  /** The multiplexer moves a multiple of the difference from one column to the other. */
  lemma MuxMoves(c: Field, p: Field, s: Field) returns (a: int)
    ensures a == s * (p - c)
    ensures Inputs(c, p, s) == ((c + a) % Q, (p - a) % Q)
  {
    hide Mux;
    a := s * (p - c);
    Opposite(s, p - c);
    MuxValue(c, p, s, a);
    MuxValue(p, c, s, 0 - a);
  }

  lemma Opposite(s: int, x: int)
    ensures s * (0 - x) == 0 - s * x
  {
  }

  /** Equal outputs with a selector other than 1/2 come from equal inputs. */
  lemma MuxInjective(c1: Field, p1: Field, c2: Field, p2: Field, s: Field)
    requires s != MIDDLE && Inputs(c1, p1, s) == Inputs(c2, p2, s)
    ensures c1 == c2 && p1 == p2
  {
    hide Inputs;
    var a1 := MuxMoves(c1, p1, s);
    var a2 := MuxMoves(c2, p2, s);
    var k := OutputsCongruent(c1 + a1, c2 + a2);
    var l := OutputsCongruent(p1 - a1, p2 - a2);
    var d, e := c1 - c2, p1 - p2;
    Spread(s, p1, c1, p2, c2);
    Substitute(d, e, s, k, k + l);
    Congruent(d * (1 - 2 * s), 0, k - s * (k + l));
    SelectorSplits(s, d);
    SameField(c1, c2);
    Congruent(p1 - p2, c2 - c1, k + l);
    SameField(p1, p2);
  }

  lemma SameField(x: Field, y: Field)
    requires (x - y) % Q == 0
    ensures x == y
  {
  }

  lemma OutputsCongruent(x: int, y: int) returns (k: int)
    requires x % Q == y % Q
    ensures x - y == k * Q
  {
    k := x / Q - y / Q;
  }

  lemma Spread(s: int, a: int, b: int, c: int, d: int)
    ensures s * (a - b) - s * (c - d) == s * ((a - c) - (b - d))
  {
  }

  lemma Substitute(d: int, e: int, s: int, k: int, m: int)
    requires d + s * (e - d) == k * Q && d + e == m * Q
    ensures d * (1 - 2 * s) == (k - s * m) * Q
  {
    assert e - d == m * Q - 2 * d;
    assert s * (m * Q - 2 * d) == (s * m) * Q - 2 * (s * d);
    assert d * (1 - 2 * s) == d - 2 * (s * d);
  }

  /** q being prime, 1 - 2 * s is invertible unless s is 1/2. */
  lemma SelectorSplits(s: Field, d: int)
    requires s != MIDDLE && (d * (1 - 2 * s)) % Q == 0
    ensures d % Q == 0
  {
    OnlyHalf(s);
    ZeroProduct(1 - 2 * s, d);
  }

  lemma OnlyHalf(s: Field)
    requires s != MIDDLE
    ensures (1 - 2 * s) % Q != 0
  {
  }

  lemma ZeroProduct(u: int, d: int)
    requires (d * u) % Q == 0 && u % Q != 0
    ensures d % Q == 0
  {
    Commute(d, u);
    MulModLeft(u, d);
    NoZeroDivisors(u % Q, d);
  }

  /** Different pairs with the same digest, each under its own hash. */
  ghost predicate CrossCollides(g: Hash2, x: (Field, Field), h: Hash2, y: (Field, Field)) {
    x != y && g(x.0, x.1) == h(y.0, y.1)
  }

  /**
    Two different openings that lead to one root with the same separating
    selectors, each under its own hash, contain different pairs with one digest,
    and the level where they sit is computed from the openings.
   */
  lemma {:induction false} CrossBinding(g: Hash2, leaf1: Field, path1: seq<Field>, h: Hash2, leaf2: Field, path2: seq<Field>,
                                        indices: seq<Field>) returns (level: nat)
    requires |path1| == |path2| == |indices| && Separating(indices)
    requires PathRoot(g, leaf1, path1, indices) == PathRoot(h, leaf2, path2, indices)
    requires leaf1 != leaf2 || path1 != path2
    ensures level < |indices|
    ensures CrossCollides(g, InputsAt(g, leaf1, path1, indices, level), h, InputsAt(h, leaf2, path2, indices, level))
    decreases |indices|
  {
    hide Mux, CrossCollides;
    level := 0;
    if indices != [] {
      var next1, next2 := Step(g, leaf1, path1[0], indices[0]), Step(h, leaf2, path2[0], indices[0]);
      if next1 != next2 || path1[1..] != path2[1..] {
        level := CrossBinding(g, next1, path1[1..], h, next2, path2[1..], indices[1..]);
        level := level + 1;
      } else {
        assert path1 == [path1[0]] + path1[1..] && path2 == [path2[0]] + path2[1..];
        InputsDetermine(g, leaf1, path1[0], h, leaf2, path2[0], indices[0]);
      }
    }
  }

  lemma InputsDetermine(g: Hash2, cur1: Field, sib1: Field, h: Hash2, cur2: Field, sib2: Field, s: Field)
    requires s != MIDDLE && (cur1 != cur2 || sib1 != sib2)
    requires Step(g, cur1, sib1, s) == Step(h, cur2, sib2, s)
    ensures CrossCollides(g, Inputs(cur1, sib1, s), h, Inputs(cur2, sib2, s))
  {
    hide Mux;
    if Inputs(cur1, sib1, s) == Inputs(cur2, sib2, s) {
      MuxInjective(cur1, sib1, cur2, sib2, s);
    }
  }

  /** Under one hash, two different openings of one root with the same separating selectors contain a collision. */
  lemma Binding(h: Hash2, leaf1: Field, path1: seq<Field>, leaf2: Field, path2: seq<Field>,
                indices: seq<Field>) returns (level: nat)
    requires |path1| == |path2| == |indices| && Separating(indices)
    requires PathRoot(h, leaf1, path1, indices) == PathRoot(h, leaf2, path2, indices)
    requires leaf1 != leaf2 || path1 != path2
    ensures level < |indices|
    ensures Collides(h, InputsAt(h, leaf1, path1, indices, level), InputsAt(h, leaf2, path2, indices, level))
  {
    level := CrossBinding(h, leaf1, path1, h, leaf2, path2, indices);
  }

  /** With the selector 1/2 every leaf has a sibling that makes both outputs any given m. */
  lemma MiddleForgets(leaf: Field, m: Field)
    ensures Inputs(leaf, (2 * m - leaf) % Q, MIDDLE) == (m, m)
  {
    hide Inputs;
    var p, k := (2 * m - leaf) % Q, (2 * m - leaf) / Q;
    var a := MuxMoves(leaf, p, MIDDLE);
    Halfway(leaf, m, p, k, a);
  }

  lemma Halfway(leaf: int, m: Field, p: int, k: int, a: int)
    requires p == 2 * m - leaf - k * Q && a == MIDDLE * (p - leaf)
    ensures (leaf + a) % Q == m == (p - a) % Q
  {
    Congruent(leaf + a, m, m - leaf - MIDDLE * k);
    Congruent(p - a, m, leaf - m + (MIDDLE - 1) * k);
  }

  /** For a given hash: different openings of one root at these indices contain a collision. */
  ghost predicate Binds(h: Hash2, indices: seq<Field>) {
    forall leaf1: Field, path1: seq<Field>, leaf2: Field, path2: seq<Field> ::
      Ambiguous(h, leaf1, path1, leaf2, path2, indices) ==> CollisionIn(h, leaf1, path1, leaf2, path2, indices)
  }

  ghost predicate Ambiguous(h: Hash2, leaf1: Field, path1: seq<Field>, leaf2: Field, path2: seq<Field>, indices: seq<Field>) {
    && |path1| == |path2| == |indices|
    && PathRoot(h, leaf1, path1, indices) == PathRoot(h, leaf2, path2, indices)
    && (leaf1 != leaf2 || path1 != path2)
  }

  ghost predicate CollisionIn(h: Hash2, leaf1: Field, path1: seq<Field>, leaf2: Field, path2: seq<Field>, indices: seq<Field>)
    requires |path1| == |path2| == |indices|
  {
    exists level: nat :: level < |indices|
      && Collides(h, InputsAt(h, leaf1, path1, indices, level), InputsAt(h, leaf2, path2, indices, level))
  }

  function FieldSum(): Hash2 {
    (x: Field, y: Field) => (x + y) % Q
  }

  /** Openings are binding for every hash exactly when no selector is 1/2. */
  lemma BindingExactly(indices: seq<Field>)
    ensures Separating(indices) <==> forall h: Hash2 :: Binds(h, indices)
  {
    if Separating(indices) {
      forall h: Hash2
        ensures Binds(h, indices)
      {
        SeparatingBinds(h, indices);
      }
    } else {
      var i: nat :| i < |indices| && indices[i] == MIDDLE;
      FailingOpening(indices, i);
      var zeros := AllZero(|indices|);
      assert Ambiguous(FieldSum(), 0, zeros, 1, zeros[i := Q - 1], indices);
      assert !Binds(FieldSum(), indices);
    }
  }

  lemma SeparatingBinds(h: Hash2, indices: seq<Field>)
    requires Separating(indices)
    ensures Binds(h, indices)
  {
    forall leaf1: Field, path1: seq<Field>, leaf2: Field, path2: seq<Field>
      | Ambiguous(h, leaf1, path1, leaf2, path2, indices)
      ensures CollisionIn(h, leaf1, path1, leaf2, path2, indices)
    {
      var level := Binding(h, leaf1, path1, leaf2, path2, indices);
    }
  }

  /** Hashing by addition, the leaf 1 opens the root of the zero leaf without a collision at any level. */
  lemma {:induction false} FailingOpening(indices: seq<Field>, i: nat)
    requires i < |indices| && indices[i] == MIDDLE
    ensures Fooled(indices, AllZero(|indices|), AllZero(|indices|)[i := Q - 1])
    decreases |indices|
  {
    hide Mux, Inputs, Step, Fooled;
    var n := |indices|;
    assert AllZero(n)[1..] == AllZero(n - 1);
    SumStep(0, 0, indices[0]);
    if i == 0 {
      assert AllZero(n)[0 := Q - 1][1..] == AllZero(n - 1);
      MiddleForgets(1, 0);
      assert (2 * 0 - 1) % Q == Q - 1;
      MiddleForgets(0, 0);
      FooledNow(indices, AllZero(n), AllZero(n)[0 := Q - 1]);
    } else {
      SumStep(1, 0, indices[0]);
      assert AllZero(n)[i := Q - 1][1..] == AllZero(n - 1)[i - 1 := Q - 1];
      FailingOpening(indices[1..], i - 1);
      FooledLater(indices, AllZero(n), AllZero(n)[i := Q - 1]);
    }
  }

  function AllZero(n: nat): (s: seq<Field>)
    ensures |s| == n
  {
    seq<Field>(n, _ => 0)
  }

  /** With the sum as hash, the leaves 0 and 1 open one root without a collision. */
  ghost predicate Fooled(indices: seq<Field>, path1: seq<Field>, path2: seq<Field>) {
    Ambiguous(FieldSum(), 0, path1, 1, path2, indices) && !CollisionIn(FieldSum(), 0, path1, 1, path2, indices)
  }

  /** The first pair is the same for both, and so is everything after it. */
  lemma FooledNow(indices: seq<Field>, path1: seq<Field>, path2: seq<Field>)
    requires |path1| == |path2| == |indices| > 0 && path1[1..] == path2[1..]
    requires Inputs(0, path1[0], indices[0]) == Inputs(1, path2[0], indices[0])
    ensures Fooled(indices, path1, path2)
  {
    hide Mux, FieldSum;
  }

  /** The first pairs differ with different sums, and the leaves move on as they are. */
  lemma FooledLater(indices: seq<Field>, path1: seq<Field>, path2: seq<Field>)
    requires |path1| == |path2| == |indices| > 0
    requires Step(FieldSum(), 0, path1[0], indices[0]) == 0 && Step(FieldSum(), 1, path2[0], indices[0]) == 1
    requires Fooled(indices[1..], path1[1..], path2[1..])
    ensures Fooled(indices, path1, path2)
  {
    hide Mux, FieldSum;
    var h := FieldSum();
    forall level: nat | level < |indices|
      ensures !Collides(h, InputsAt(h, 0, path1, indices, level), InputsAt(h, 1, path2, indices, level))
    {
      if level > 0 {
        assert InputsAt(h, 0, path1, indices, level) == InputsAt(h, 0, path1[1..], indices[1..], level - 1);
        assert InputsAt(h, 1, path2, indices, level) == InputsAt(h, 1, path2[1..], indices[1..], level - 1);
      }
    }
  }

  /** Addition does not notice the selector. */
  lemma SumStep(c: Field, p: Field, s: Field)
    ensures Step(FieldSum(), c, p, s) == (c + p) % Q
  {
    hide Inputs;
    var a := MuxMoves(c, p, s);
    SumOfMoved(c, p, a);
  }

  lemma SumOfMoved(c: int, p: int, a: int)
    ensures ((c + a) % Q + (p - a) % Q) % Q == (c + p) % Q
  {
    AddMod(c + a, p - a);
  }

  // ---- completeness -----------------------------------------------------------------------------

  /** A full binary tree over 2^depth leaves. */
  datatype Tree = Leaf(value: Field) | Node(left: Tree, right: Tree) {

    ghost predicate Full(depth: nat) {
      match this
      case Leaf(_) => depth == 0
      case Node(l, r) => depth > 0 && l.Full(depth - 1) && r.Full(depth - 1)
    }

    function Root(h: Hash2): Field {
      match this
      case Leaf(v) => v
      case Node(l, r) => h(l.Root(h), r.Root(h))
    }

    /** The k-th leaf from the left. */
    ghost function LeafAt(depth: nat, k: nat): Field
      requires Full(depth) && k < TreeSize(depth)
    {
      match this
      case Leaf(v) => v
      case Node(l, r) =>
        var half := TreeSize(depth - 1);
        if k < half then l.LeafAt(depth - 1, k) else r.LeafAt(depth - 1, k - half)
    }

    /** The siblings met on the way up from the k-th leaf. */
    ghost function Siblings(h: Hash2, depth: nat, k: nat): (path: seq<Field>)
      requires Full(depth) && k < TreeSize(depth)
      ensures |path| == depth
    {
      match this
      case Leaf(_) => []
      case Node(l, r) =>
        var half := TreeSize(depth - 1);
        if k < half then l.Siblings(h, depth - 1, k) + [r.Root(h)]
        else r.Siblings(h, depth - 1, k - half) + [l.Root(h)]
    }

    /** The pair hashed at a level on the way up from the k-th leaf. */
    ghost function PairAt(h: Hash2, depth: nat, k: nat, level: nat): (Field, Field)
      requires Full(depth) && k < TreeSize(depth) && level < depth
    {
      var half := TreeSize(depth - 1);
      if level == depth - 1 then (left.Root(h), right.Root(h))
      else if k < half then left.PairAt(h, depth - 1, k, level)
      else right.PairAt(h, depth - 1, k - half, level)
    }
  }

  /** Left and right in the smallest tree. */
  lemma SmallestTree(h: Hash2, x: Field, y: Field)
    ensures Node(Leaf(x), Leaf(y)).Root(h) == h(x, y)
    ensures var t := Node(Leaf(x), Leaf(y));
            t.Full(1) && TreeSize(1) == 2 && t.LeafAt(1, 0) == x && t.LeafAt(1, 1) == y
            && t.Siblings(h, 1, 0) == [y] && t.Siblings(h, 1, 1) == [x]
  {
    assert TreeSize(0) == 1;
  }

  function TreeSize(depth: nat): nat {
    if depth == 0 then 1 else 2 * TreeSize(depth - 1)
  }

  /** The bits of an index, lowest first. */
  function IndexBits(index: int, levels: nat): (bits: seq<Field>)
    ensures |bits| == levels
    decreases levels
  {
    if levels == 0 then [] else [index % 2] + IndexBits(index / 2, levels - 1)
  }

  lemma {:induction false} IndexBitsBoolean(index: int, levels: nat)
    ensures Boolean(IndexBits(index, levels))
    decreases levels
  {
    if levels > 0 {
      IndexBitsBoolean(index / 2, levels - 1);
    }
  }

  /** Splitting off the highest bit instead of the lowest. */
  lemma {:induction false} HighestBit(k: nat, depth: nat)
    requires depth > 0 && k < TreeSize(depth)
    ensures var half := TreeSize(depth - 1);
            IndexBits(k, depth) == if k < half then IndexBits(k, depth - 1) + [0] else IndexBits(k - half, depth - 1) + [1]
  {
    if depth == 1 {
      assert IndexBits(k, 1) == [k % 2] + IndexBits(k / 2, 0);
    } else {
      HighestBit(k / 2, depth - 1);
      var half := TreeSize(depth - 1);
      if k >= half {
        assert (k - half) % 2 == k % 2 && (k - half) / 2 == k / 2 - TreeSize(depth - 2);
      }
    }
  }

  /** Climbing one more level at the top of a path. */
  lemma {:induction false} PathAppend(h: Hash2, leaf: Field, path: seq<Field>, indices: seq<Field>, e: Field, s: Field)
    requires |path| == |indices|
    ensures PathRoot(h, leaf, path + [e], indices + [s]) == Step(h, PathRoot(h, leaf, path, indices), e, s)
    decreases |path|
  {
    if path == [] {
      assert ([e])[1..] == [] && ([s])[1..] == [];
      assert path + [e] == [e] && indices + [s] == [s];
    } else {
      assert (path + [e])[1..] == path[1..] + [e] && (indices + [s])[1..] == indices[1..] + [s];
      PathAppend(h, Step(h, leaf, path[0], indices[0]), path[1..], indices[1..], e, s);
    }
  }

  /** The sibling path of any leaf, with the bits of its index, leads to the tree's root. */
  lemma {:induction false} Completeness(h: Hash2, t: Tree, depth: nat, k: nat)
    requires t.Full(depth) && k < TreeSize(depth)
    ensures PathRoot(h, t.LeafAt(depth, k), t.Siblings(h, depth, k), IndexBits(k, depth)) == t.Root(h)
  {
    match t
    case Leaf(_) =>
    case Node(l, r) =>
      var half := TreeSize(depth - 1);
      HighestBit(k, depth);
      if k < half {
        Completeness(h, l, depth - 1, k);
        PathAppend(h, l.LeafAt(depth - 1, k), l.Siblings(h, depth - 1, k), IndexBits(k, depth - 1), r.Root(h), 0);
        MuxPicks(l.Root(h), r.Root(h), 0);
        MuxPicks(r.Root(h), l.Root(h), 0);
      } else {
        Completeness(h, r, depth - 1, k - half);
        PathAppend(h, r.LeafAt(depth - 1, k - half), r.Siblings(h, depth - 1, k - half), IndexBits(k - half, depth - 1), l.Root(h), 1);
        MuxPicks(r.Root(h), l.Root(h), 1);
        MuxPicks(l.Root(h), r.Root(h), 1);
      }
  }

  // ---- the client's loop ----------------------------------------------------------------------------

  /**
    `verifyMerkleProof`: accepts exactly when hashing upwards, the sibling on the
    right of an even index and on the left of an odd one, ends at the root; that
    is, when the circuit's template outputs the root for the bits of the index.
   */
  method VerifyMerkleProof(h: Hash2, leaf: Field, proof: seq<Field>, root: Field, leafIndex: int) returns (accepted: bool)
    ensures accepted <==> PathRoot(h, leaf, proof, IndexBits(leafIndex, |proof|)) == root
    ensures accepted <==>
              exists hashes: seq<Field>, index: seq<int> ::
                && |hashes| == |index| == |proof| + 1 && hashes[0] == leaf && index[0] == leafIndex
                && (forall i :: 0 <= i < |proof| ==> index[i + 1] == index[i] / 2)
                && (forall i :: 0 <= i < |proof| ==>
                      hashes[i + 1] == if index[i] % 2 == 0 then h(hashes[i], proof[i]) else h(proof[i], hashes[i]))
                && hashes[|proof|] == root
  {
    hide PathRoot, IndexBits, Climbs, Mux;
    var currentHash := leaf;
    var index := leafIndex;
    ghost var hashes: seq<Field>, indexes := [leaf], [leafIndex];
    assert Climbs(h, leaf, proof[..0], leafIndex, hashes, indexes) by { Start(h, leaf, proof, leafIndex); }
    for i := 0 to |proof|
      invariant |hashes| == |indexes| == i + 1 && hashes[i] == currentHash && indexes[i] == index
      invariant Climbs(h, leaf, proof[..i], leafIndex, hashes, indexes)
      invariant PathRoot(h, currentHash, proof[i..], IndexBits(index, |proof| - i))
             == PathRoot(h, leaf, proof, IndexBits(leafIndex, |proof|))
    {
      var sibling := proof[i];
      ghost var before := currentHash;
      if index % 2 == 0 {
        currentHash := h(currentHash, sibling);
      } else {
        currentHash := h(sibling, currentHash);
      }
      BitStep(h, before, proof[i..], index, currentHash);
      ClimbsOn(h, leaf, proof, i, leafIndex, hashes, indexes, currentHash);
      hashes, indexes := hashes + [currentHash], indexes + [index / 2];
      index := index / 2;
    }
    accepted := currentHash == root;
    assert proof[..|proof|] == proof;
    EmptyPath(h, currentHash, proof[|proof|..], index);
    WayToRoot(h, leaf, proof, root, leafIndex, hashes, indexes);
  }

  lemma Start(h: Hash2, leaf: Field, proof: seq<Field>, leafIndex: int)
    ensures Climbs(h, leaf, proof[..0], leafIndex, [leaf], [leafIndex])
  {
  }

  lemma EmptyPath(h: Hash2, cur: Field, path: seq<Field>, index: int)
    requires path == []
    ensures PathRoot(h, cur, path, IndexBits(index, 0)) == cur
  {
  }

  /** One iteration: the bit of the index decides the side. */
  lemma BitStep(h: Hash2, cur: Field, path: seq<Field>, index: int, next: Field)
    requires path != [] && next == if index % 2 == 0 then h(cur, path[0]) else h(path[0], cur)
    ensures PathRoot(h, cur, path, IndexBits(index, |path|)) == PathRoot(h, next, path[1..], IndexBits(index / 2, |path| - 1))
  {
    MuxPicks(cur, path[0], index % 2);
    MuxPicks(path[0], cur, index % 2);
  }

  /** The hashes and indices met on the way up. */
  ghost predicate Climbs(h: Hash2, leaf: Field, proof: seq<Field>, leafIndex: int, hashes: seq<Field>, index: seq<int>) {
    && |hashes| == |index| == |proof| + 1 && hashes[0] == leaf && index[0] == leafIndex
    && (forall i :: 0 <= i < |proof| ==> index[i + 1] == index[i] / 2)
    && (forall i :: 0 <= i < |proof| ==>
          hashes[i + 1] == if index[i] % 2 == 0 then h(hashes[i], proof[i]) else h(proof[i], hashes[i]))
  }

  lemma ClimbsOn(h: Hash2, leaf: Field, proof: seq<Field>, i: nat, leafIndex: int, hashes: seq<Field>, index: seq<int>, next: Field)
    requires i < |proof| && Climbs(h, leaf, proof[..i], leafIndex, hashes, index)
    requires next == if index[i] % 2 == 0 then h(hashes[i], proof[i]) else h(proof[i], hashes[i])
    ensures Climbs(h, leaf, proof[..i + 1], leafIndex, hashes + [next], index + [index[i] / 2])
  {
  }

  /** There is only one way up, so it ends at the root if any does. */
  lemma WayToRoot(h: Hash2, leaf: Field, proof: seq<Field>, root: Field, leafIndex: int, hashes: seq<Field>, index: seq<int>)
    requires Climbs(h, leaf, proof, leafIndex, hashes, index)
    ensures |hashes| == |proof| + 1
    ensures hashes[|proof|] == root <==>
              exists x: seq<Field>, y: seq<int> ::
                && |x| == |y| == |proof| + 1 && x[0] == leaf && y[0] == leafIndex
                && (forall i :: 0 <= i < |proof| ==> y[i + 1] == y[i] / 2)
                && (forall i :: 0 <= i < |proof| ==>
                      x[i + 1] == if y[i] % 2 == 0 then h(x[i], proof[i]) else h(proof[i], x[i]))
                && x[|proof|] == root
  {
    forall x: seq<Field>, y: seq<int> | Climbs(h, leaf, proof, leafIndex, x, y)
      ensures x == hashes
    {
      SameWay(h, leaf, proof, leafIndex, hashes, index, x, y, |proof|);
    }
    assert forall x: seq<Field>, y: seq<int> ::
      && |x| == |y| == |proof| + 1 && x[0] == leaf && y[0] == leafIndex
      && (forall i :: 0 <= i < |proof| ==> y[i + 1] == y[i] / 2)
      && (forall i :: 0 <= i < |proof| ==>
            x[i + 1] == if y[i] % 2 == 0 then h(x[i], proof[i]) else h(proof[i], x[i]))
      ==> Climbs(h, leaf, proof, leafIndex, x, y);
    assert hashes[|proof|] == root ==>
      && |hashes| == |index| == |proof| + 1 && hashes[0] == leaf && index[0] == leafIndex
      && (forall i :: 0 <= i < |proof| ==> index[i + 1] == index[i] / 2)
      && (forall i :: 0 <= i < |proof| ==>
            hashes[i + 1] == if index[i] % 2 == 0 then h(hashes[i], proof[i]) else h(proof[i], hashes[i]));
  }

  lemma {:induction false} SameWay(h: Hash2, leaf: Field, proof: seq<Field>, leafIndex: int, hashes: seq<Field>, index: seq<int>,
                                   x: seq<Field>, y: seq<int>, n: nat)
    requires Climbs(h, leaf, proof, leafIndex, hashes, index) && Climbs(h, leaf, proof, leafIndex, x, y) && n <= |proof|
    ensures x[..n + 1] == hashes[..n + 1] && y[..n + 1] == index[..n + 1]
    ensures n == |proof| ==> x == hashes && y == index
  {
    if n > 0 {
      SameWay(h, leaf, proof, leafIndex, hashes, index, x, y, n - 1);
      assert x[n - 1] == x[..n][n - 1] == hashes[n - 1] && y[n - 1] == y[..n][n - 1] == index[n - 1];
      assert x[n] == hashes[(n - 1) + 1] && y[n] == index[(n - 1) + 1];
    }
    assert x[..n + 1] == x[..n] + [x[n]] && hashes[..n + 1] == hashes[..n] + [hashes[n]];
    assert y[..n + 1] == y[..n] + [y[n]] && index[..n + 1] == index[..n] + [index[n]];
  }
}
