/**
  Membership: when an opening of a tree's root is an opening of one of its
  leaves. The circuit takes any field element as a selector; exactly the bits
  are safe.
 */
module Authenticity {
  import opened Modulus
  import opened Merkle

  /** The index whose bits, lowest first, are given. */
  function BitsValue(bits: seq<Field>): nat {
    if bits == [] then 0 else bits[0] + 2 * BitsValue(bits[1..])
  }

  lemma {:induction false} BitsOfValue(bits: seq<Field>)
    requires Boolean(bits)
    ensures BitsValue(bits) < TreeSize(|bits|) && IndexBits(BitsValue(bits), |bits|) == bits
    decreases |bits|
  {
    if bits != [] {
      BitsOfValue(bits[1..]);
    }
  }

  /**
    With boolean selectors, an opening of a full tree's root is the opening of
    the leaf at the position they spell, or it contains a collision.
   */
  lemma Membership(h: Hash2, t: Tree, leaf: Field, path: seq<Field>, indices: seq<Field>) returns (level: nat)
    requires |path| == |indices| && t.Full(|indices|) && Boolean(indices)
    requires PathRoot(h, leaf, path, indices) == t.Root(h)
    ensures BitsValue(indices) < TreeSize(|indices|)
    ensures var k := BitsValue(indices);
            (leaf == t.LeafAt(|indices|, k) && path == t.Siblings(h, |indices|, k))
            || (level < |indices|
                && Collides(h, InputsAt(h, leaf, path, indices, level), t.PairAt(h, |indices|, k, level)))
  {
    var depth := |indices|;
    BitsOfValue(indices);
    var k := BitsValue(indices);
    Completeness(h, t, depth, k);
    BooleanSeparates(indices);
    level := 0;
    if leaf != t.LeafAt(depth, k) || path != t.Siblings(h, depth, k) {
      level := Binding(h, leaf, path, t.LeafAt(depth, k), t.Siblings(h, depth, k), indices);
      OwnPair(h, t, depth, k, level);
    }
  }

  /** The pairs of a leaf's own opening are those of the tree. */
  lemma {:induction false} OwnPair(h: Hash2, t: Tree, depth: nat, k: nat, level: nat)
    requires t.Full(depth) && k < TreeSize(depth) && level < depth
    ensures InputsAt(h, t.LeafAt(depth, k), t.Siblings(h, depth, k), IndexBits(k, depth), level) == t.PairAt(h, depth, k, level)
  {
    hide Mux, InputsAt;
    var l, r, half := t.left, t.right, TreeSize(depth - 1);
    HighestBit(k, depth);
    if k < half {
      Completeness(h, l, depth - 1, k);
      PairBelow(h, l.LeafAt(depth - 1, k), l.Siblings(h, depth - 1, k), IndexBits(k, depth - 1), r.Root(h), 0, level);
      PairPicks(l.Root(h), r.Root(h));
      if level < depth - 1 { OwnPair(h, l, depth - 1, k, level); }
    } else {
      Completeness(h, r, depth - 1, k - half);
      PairBelow(h, r.LeafAt(depth - 1, k - half), r.Siblings(h, depth - 1, k - half), IndexBits(k - half, depth - 1), l.Root(h), 1, level);
      PairPicks(r.Root(h), l.Root(h));
      if level < depth - 1 { OwnPair(h, r, depth - 1, k - half, level); }
    }
  }

  lemma PairPicks(c: Field, p: Field)
    ensures Inputs(c, p, 0) == (c, p) && Inputs(c, p, 1) == (p, c)
  {
    MuxPicks(c, p, 0);
    MuxPicks(p, c, 0);
    MuxPicks(c, p, 1);
    MuxPicks(p, c, 1);
  }

  /** One more level at the top of a path does not change the pairs below it. */
  lemma {:induction false} PairBelow(h: Hash2, leaf: Field, path: seq<Field>, indices: seq<Field>, e: Field, s: Field, level: nat)
    requires |path| == |indices| && level <= |path|
    ensures InputsAt(h, leaf, path + [e], indices + [s], level)
            == if level < |path| then InputsAt(h, leaf, path, indices, level)
               else Inputs(PathRoot(h, leaf, path, indices), e, s)
    decreases |path|
  {
    hide Inputs;
    if path == [] {
      assert path + [e] == [e] && indices + [s] == [s];
    } else {
      assert (path + [e])[1..] == path[1..] + [e] && (indices + [s])[1..] == indices[1..] + [s];
      if level > 0 {
        PairBelow(h, Step(h, leaf, path[0], indices[0]), path[1..], indices[1..], e, s, level - 1);
      }
    }
  }

  // ---- which selectors are safe ----------------------------------------------------------------------

  /** The opening's leaf is one of the tree's. */
  ghost predicate InTree(t: Tree, depth: nat, leaf: Field)
    requires t.Full(depth)
  {
    exists k: nat :: k < TreeSize(depth) && t.LeafAt(depth, k) == leaf
  }

  /** At some level the opening collides with the pair of the tree there, on the way up from some leaf. */
  ghost predicate MeetsCollision(h: Hash2, t: Tree, leaf: Field, path: seq<Field>, indices: seq<Field>)
    requires |path| == |indices| && t.Full(|indices|)
  {
    exists k: nat, level: nat :: k < TreeSize(|indices|) && level < |indices|
      && Collides(h, InputsAt(h, leaf, path, indices, level), t.PairAt(h, |indices|, k, level))
  }

  /** What membership promises of one opening. */
  ghost predicate Genuine(h: Hash2, t: Tree, leaf: Field, path: seq<Field>, indices: seq<Field>)
    requires |path| == |indices| && t.Full(|indices|)
  {
    PathRoot(h, leaf, path, indices) == t.Root(h) ==>
      InTree(t, |indices|, leaf) || MeetsCollision(h, t, leaf, path, indices)
  }

  /** Every opening of a full tree's root with these selectors is of a leaf in the tree, or meets a collision. */
  ghost predicate Authentic(h: Hash2, indices: seq<Field>) {
    forall t: Tree, leaf: Field, path: seq<Field> ::
      |path| == |indices| && t.Full(|indices|) ==> Genuine(h, t, leaf, path, indices)
  }

  /** Openings with given selectors prove membership for every hash exactly when the selectors are bits. */
  lemma AuthenticExactly(indices: seq<Field>)
    ensures Boolean(indices) <==> forall h: Hash2 :: Authentic(h, indices)
  {
    if Boolean(indices) {
      forall h: Hash2
        ensures Authentic(h, indices)
      {
        BitsAuthentic(h, indices);
      }
    } else {
      var i: nat :| i < |indices| && indices[i] > 1;
      ForeignOpening(LeftInput(), indices, i);
    }
  }

  lemma BitsAuthentic(h: Hash2, indices: seq<Field>)
    requires Boolean(indices)
    ensures Authentic(h, indices)
  {
    hide PathRoot, InputsAt, Collides;
    forall t: Tree, leaf: Field, path: seq<Field> | |path| == |indices| && t.Full(|indices|)
      ensures Genuine(h, t, leaf, path, indices)
    {
      if PathRoot(h, leaf, path, indices) == t.Root(h) {
        var level := Membership(h, t, leaf, path, indices);
      }
    }
  }

  /** Membership fails for every hash exactly when the lowest selector is not a bit, whatever the others are. */
  lemma ForeignLeaf(indices: seq<Field>)
    requires indices != []
    ensures indices[0] > 1 <==> forall h: Hash2 :: !Authentic(h, indices)
  {
    if indices[0] > 1 {
      forall h: Hash2
        ensures !Authentic(h, indices)
      {
        ForeignOpening(h, indices, 0);
      }
    } else {
      ConstantAuthentic(indices);
    }
  }

  /** If everything hashes to 0, a leaf outside the tree collides at once with the pair of the first two leaves. */
  lemma ConstantAuthentic(indices: seq<Field>)
    requires indices != [] && indices[0] <= 1
    ensures Authentic(AlwaysZero(), indices)
  {
    var h := AlwaysZero();
    var n := |indices|;
    forall t: Tree, leaf: Field, path: seq<Field> | |path| == n && t.Full(n)
      ensures Genuine(h, t, leaf, path, indices)
    {
      FirstPair(h, t, n);
      PairPicks(leaf, path[0]);
      if !InTree(t, n, leaf) {
        assert Collides(h, InputsAt(h, leaf, path, indices, 0), t.PairAt(h, n, 0, 0));
      }
    }
  }

  function AlwaysZero(): Hash2 {
    (x: Field, y: Field) => 0
  }

  lemma {:induction false} FirstPair(h: Hash2, t: Tree, depth: nat)
    requires depth > 0 && t.Full(depth)
    ensures TreeSize(depth) > 1 && t.PairAt(h, depth, 0, 0) == (t.LeafAt(depth, 0), t.LeafAt(depth, 1))
  {
    if depth > 1 {
      FirstPair(h, t.left, depth - 1);
    } else {
      assert TreeSize(0) == 1;
    }
  }

  // ---- foreign openings ------------------------------------------------------------------------------

  /** A hash that returns the left of its arguments. */
  function LeftInput(): Hash2 {
    (x: Field, y: Field) => x
  }

  /** Hashing equal values gives the value back. */
  ghost predicate Idempotent(h: Hash2) {
    forall x: Field :: h(x, x) == x
  }

  /** The value n levels up when both children are always alike. */
  function Rise(h: Hash2, v: Field, n: nat): Field {
    if n == 0 then v else h(Rise(h, v, n - 1), Rise(h, v, n - 1))
  }

  lemma {:induction false} RiseFromBelow(h: Hash2, v: Field, n: nat)
    ensures Rise(h, h(v, v), n) == Rise(h, v, n + 1)
  {
    if n > 0 {
      RiseFromBelow(h, v, n - 1);
    }
  }

  lemma {:induction false} RiseStays(h: Hash2, v: Field, n: nat)
    requires Idempotent(h)
    ensures Rise(h, v, n) == v
  {
    if n > 0 {
      RiseStays(h, v, n - 1);
    }
  }

  /** Siblings equal to what they stand beside. */
  function Climb(h: Hash2, v: Field, n: nat): (path: seq<Field>)
    ensures |path| == n
    decreases n
  {
    if n == 0 then [] else [v] + Climb(h, h(v, v), n - 1)
  }

  /** Whatever the selector, equal columns stay as they are. */
  lemma EqualColumns(c: Field, s: Field)
    ensures Inputs(c, c, s) == (c, c)
  {
    hide Inputs;
    var a := MuxMoves(c, c, s);
    Vanishes(s, c);
  }

  lemma Vanishes(s: int, c: int)
    ensures s * (c - c) == 0
  {
  }

  lemma {:induction false} ClimbPairs(h: Hash2, v: Field, indices: seq<Field>)
    ensures PathRoot(h, v, Climb(h, v, |indices|), indices) == Rise(h, v, |indices|)
    ensures forall level: nat :: level < |indices| ==>
              InputsAt(h, v, Climb(h, v, |indices|), indices, level) == (Rise(h, v, level), Rise(h, v, level))
    decreases |indices|
  {
    hide Inputs;
    if indices != [] {
      var path, next := Climb(h, v, |indices|), h(v, v);
      EqualColumns(v, indices[0]);
      assert path[1..] == Climb(h, next, |indices| - 1);
      ClimbPairs(h, next, indices[1..]);
      RiseFromBelow(h, v, |indices| - 1);
      forall level: nat | level < |indices|
        ensures InputsAt(h, v, path, indices, level) == (Rise(h, v, level), Rise(h, v, level))
      {
        if level > 0 {
          RiseFromBelow(h, v, level - 1);
        }
      }
    }
  }

  /** From 0, with the sibling 1 at level i, the selector s there makes the pair (s, 1 - s). */
  lemma SplitOne(s: Field)
    ensures Inputs(0, 1, s) == (s, (1 - s) % Q)
  {
    hide Inputs;
    var a := MuxMoves(0, 1, s);
  }

  function ForeignPath(h: Hash2, i: nat, n: nat, top: Field): (path: seq<Field>)
    requires i < n
    ensures |path| == n
  {
    if i == 0 then [1] + Climb(h, top, n - 1) else [0] + ForeignPath(h, i - 1, n - 1, top)
  }

  /** The pair at a level of the foreign opening. */
  function ForeignPair(h: Hash2, i: nat, s: Field, level: nat): (Field, Field) {
    if level < i then (0, 0)
    else if level == i then (s, (1 - s) % Q)
    else
      var v := Rise(h, h(s, (1 - s) % Q), level - i - 1);
      (v, v)
  }

  lemma {:induction false} ForeignPairs(h: Hash2, indices: seq<Field>, i: nat)
    requires i < |indices| && (i > 0 ==> Idempotent(h))
    ensures var s, n := indices[i], |indices|;
            var path := ForeignPath(h, i, n, h(s, (1 - s) % Q));
            && PathRoot(h, 0, path, indices) == Rise(h, h(s, (1 - s) % Q), n - 1 - i)
            && forall level: nat :: level < n ==> InputsAt(h, 0, path, indices, level) == ForeignPair(h, i, s, level)
    decreases i
  {
    hide Inputs;
    var s, n := indices[i], |indices|;
    var top := h(s, (1 - s) % Q);
    var path := ForeignPath(h, i, n, top);
    if i == 0 {
      SplitOne(s);
      assert path[1..] == Climb(h, top, n - 1);
      ClimbPairs(h, top, indices[1..]);
    } else {
      EqualColumns(0, indices[0]);
      assert path[1..] == ForeignPath(h, i - 1, n - 1, top);
      ForeignPairs(h, indices[1..], i - 1);
      forall level: nat | 0 < level < n
        ensures InputsAt(h, 0, path, indices, level) == InputsAt(h, 0, path[1..], indices[1..], level - 1)
      {
      }
    }
  }

  /** A tree whose lower subtrees are all the same. */
  function Copies(t: Tree, n: nat): Tree {
    if n == 0 then t else Node(Copies(t, n - 1), Copies(t, n - 1))
  }

  lemma {:induction false} CopiesRoot(h: Hash2, t: Tree, depth: nat, n: nat)
    requires t.Full(depth)
    ensures Copies(t, n).Full(depth + n) && Copies(t, n).Root(h) == Rise(h, t.Root(h), n)
  {
    if n > 0 {
      CopiesRoot(h, t, depth, n - 1);
    }
  }

  /** The leaf of the tree that leaf k of the copies is a copy of. */
  function Original(depth: nat, n: nat, k: nat): (j: nat)
    requires k < TreeSize(depth + n)
    ensures j < TreeSize(depth)
  {
    if n == 0 then k
    else
      var half := TreeSize(depth + n - 1);
      Original(depth, n - 1, if k < half then k else k - half)
  }

  /** A copied leaf meets the pairs of the tree, and above them only equal pairs. */
  lemma {:induction false} CopiesPair(h: Hash2, t: Tree, depth: nat, n: nat, k: nat, level: nat)
    requires t.Full(depth) && Copies(t, n).Full(depth + n) && k < TreeSize(depth + n) && level < depth + n
    ensures Copies(t, n).PairAt(h, depth + n, k, level)
            == if level < depth then t.PairAt(h, depth, Original(depth, n, k), level)
               else (Rise(h, t.Root(h), level - depth), Rise(h, t.Root(h), level - depth))
  {
    if n > 0 {
      var half := TreeSize(depth + n - 1);
      CopiesRoot(h, t, depth, n - 1);
      if level < depth + n - 1 {
        CopiesPair(h, t, depth, n - 1, if k < half then k else k - half, level);
      }
    }
  }

  lemma {:induction false} CopiesLeaf(t: Tree, depth: nat, n: nat, k: nat)
    requires t.Full(depth) && Copies(t, n).Full(depth + n) && k < TreeSize(depth + n)
    ensures Copies(t, n).LeafAt(depth + n, k) == t.LeafAt(depth, Original(depth, n, k))
  {
    if n > 0 {
      var half := TreeSize(depth + n - 1);
      CopiesLeaf(t, depth, n - 1, if k < half then k else k - half);
    }
  }

  /** The two kinds of leaves, s and 1 - s, below one node. */
  function LowTree(i: nat, s: Field): Tree {
    Node(Copies(Leaf(s), i), Copies(Leaf((1 - s) % Q), i))
  }

  /** The tree whose root the foreign opening opens. */
  function ForeignTree(i: nat, n: nat, s: Field): Tree
    requires i < n
  {
    Copies(LowTree(i, s), n - 1 - i)
  }

  lemma LowTreeRoot(h: Hash2, i: nat, s: Field)
    requires i > 0 ==> Idempotent(h)
    ensures LowTree(i, s).Full(i + 1) && LowTree(i, s).Root(h) == h(s, (1 - s) % Q)
  {
    CopiesRoot(h, Leaf(s), 0, i);
    CopiesRoot(h, Leaf((1 - s) % Q), 0, i);
    if i > 0 {
      RiseStays(h, s, i);
      RiseStays(h, (1 - s) % Q, i);
    }
  }

  lemma LowTreeLeaf(i: nat, s: Field, j: nat)
    requires s > 1 && LowTree(i, s).Full(i + 1) && j < TreeSize(i + 1)
    ensures LowTree(i, s).LeafAt(i + 1, j) != 0
  {
    var half := TreeSize(i);
    if j < half { CopiesLeaf(Leaf(s), 0, i, j); } else { CopiesLeaf(Leaf((1 - s) % Q), 0, i, j - half); }
  }

  /** Below level i no pair hashes to 0, and at level i it is the one of the foreign opening. */
  lemma LowTreePair(h: Hash2, i: nat, s: Field, j: nat, level: nat)
    requires s > 1 && (i > 0 ==> Idempotent(h))
    requires LowTree(i, s).Full(i + 1) && j < TreeSize(i + 1) && level <= i
    ensures var p := LowTree(i, s).PairAt(h, i + 1, j, level);
            if level < i then h(p.0, p.1) != 0 else p == (s, (1 - s) % Q)
  {
    var half := TreeSize(i);
    var x: Field := if j < half then s else (1 - s) % Q;
    CopiesRoot(h, Leaf(s), 0, i);
    CopiesRoot(h, Leaf((1 - s) % Q), 0, i);
    if level < i {
      CopiesPair(h, Leaf(x), 0, i, if j < half then j else j - half, level);
      RiseStays(h, x, level);
    } else if i > 0 {
      RiseStays(h, s, i);
      RiseStays(h, (1 - s) % Q, i);
    }
  }

  /** A selector that is not a bit lets a leaf outside the tree open its root without a collision. */
  lemma ForeignOpening(h: Hash2, indices: seq<Field>, i: nat)
    requires i < |indices| && indices[i] > 1 && (i > 0 ==> Idempotent(h))
    ensures !Authentic(h, indices)
  {
    hide PathRoot, InputsAt, ForeignPath, Rise, Copies, LowTree, TreeSize;
    var s, n := indices[i], |indices|;
    var top: Field := h(s, (1 - s) % Q);
    var path, t, low := ForeignPath(h, i, n, top), ForeignTree(i, n, s), LowTree(i, s);
    ForeignPairs(h, indices, i);
    LowTreeRoot(h, i, s);
    CopiesRoot(h, low, i + 1, n - 1 - i);
    forall k: nat | k < TreeSize(n)
      ensures t.LeafAt(n, k) != 0
    {
      CopiesLeaf(low, i + 1, n - 1 - i, k);
      LowTreeLeaf(i, s, Original(i + 1, n - 1 - i, k));
    }
    forall k: nat, level: nat | k < TreeSize(n) && level < n
      ensures !Collides(h, InputsAt(h, 0, path, indices, level), t.PairAt(h, n, k, level))
    {
      CopiesPair(h, low, i + 1, n - 1 - i, k, level);
      if level <= i {
        LowTreePair(h, i, s, Original(i + 1, n - 1 - i, k), level);
      }
    }
    assert !Genuine(h, t, 0, path, indices);
  }
}
