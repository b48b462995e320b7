/** The circuit's Transaction template: its constraints, and what a satisfying assignment means. */
module Transaction {
  import opened Products
  import opened Modulus
  import opened Merkle
  import opened Sums

  type Hash3 = (Field, Field, Field) -> Field

  datatype Signals = Signals(
    root: Field, nullifierHashes: seq<Field>, outCommitments: seq<Field>,
    inAmount: seq<Field>, inSecret: seq<Field>, inRecipient: seq<Field>,
    inPathElements: seq<seq<Field>>, inPathIndices: seq<seq<Field>>,
    outAmount: seq<Field>, outSecret: seq<Field>, outRecipient: seq<Field>)

  /** The declared sizes of the signals. */
  ghost predicate Shaped(w: Signals, nInputs: nat, nOutputs: nat, levels: nat) {
    && |w.nullifierHashes| == |w.inAmount| == |w.inSecret| == |w.inRecipient| == nInputs
    && |w.inPathElements| == |w.inPathIndices| == nInputs
    && (forall i :: 0 <= i < nInputs ==> |w.inPathElements[i]| == |w.inPathIndices[i]| == levels)
    && |w.outCommitments| == |w.outAmount| == |w.outSecret| == |w.outRecipient| == nOutputs
  }

  /** What the template asks of input i. */
  predicate InputHolds(h2: Hash2, h3: Hash3, w: Signals, i: nat)
    requires i < |w.inAmount| == |w.inSecret| == |w.inRecipient| == |w.nullifierHashes|
    requires |w.inPathElements| == |w.inPathIndices| == |w.inAmount|
    requires |w.inPathElements[i]| == |w.inPathIndices[i]|
  {
    var commitment := h3(w.inAmount[i], w.inSecret[i], w.inRecipient[i]);
    && h2(commitment, w.inSecret[i]) == w.nullifierHashes[i]
    && PathRoot(h2, commitment, w.inPathElements[i], w.inPathIndices[i]) == w.root
  }

  /** What the template asks of output i. */
  predicate OutputHolds(h3: Hash3, w: Signals, i: nat)
    requires i < |w.outAmount| == |w.outSecret| == |w.outRecipient| == |w.outCommitments|
  {
    h3(w.outAmount[i], w.outSecret[i], w.outRecipient[i]) == w.outCommitments[i]
  }

  /** The whole constraint system; amounts are balanced in the field. */
  ghost predicate Satisfies(h2: Hash2, h3: Hash3, w: Signals, nInputs: nat, nOutputs: nat, levels: nat) {
    && Shaped(w, nInputs, nOutputs, levels)
    && (forall i :: 0 <= i < nInputs ==> InputHolds(h2, h3, w, i))
    && (forall i :: 0 <= i < nOutputs ==> OutputHolds(h3, w, i))
    && Sum(w.inAmount) % Q == Sum(w.outAmount) % Q
  }

  /** The template's two loops, with their running field sums, decide the constraint system. */
  method Check(h2: Hash2, h3: Hash3, w: Signals, nInputs: nat, nOutputs: nat, levels: nat) returns (ok: bool)
    requires Shaped(w, nInputs, nOutputs, levels)
    ensures ok <==> Satisfies(h2, h3, w, nInputs, nOutputs, levels)
  {
    hide InputHolds, OutputHolds, Sum;
    ok := true;
    SumOfNone();
    var sumIns: Field := 0;
    for i := 0 to nInputs
      invariant ok <==> forall j :: 0 <= j < i ==> InputHolds(h2, h3, w, j)
      invariant sumIns == Sum(w.inAmount[..i]) % Q
    {
      ok := ok && InputHolds(h2, h3, w, i);
      NextSum(w.inAmount, i);
      sumIns := (sumIns + w.inAmount[i]) % Q;
    }
    var sumOuts: Field := 0;
    var inputsOk := ok;
    for i := 0 to nOutputs
      invariant ok <==> inputsOk && forall j :: 0 <= j < i ==> OutputHolds(h3, w, j)
      invariant sumOuts == Sum(w.outAmount[..i]) % Q
    {
      ok := ok && OutputHolds(h3, w, i);
      NextSum(w.outAmount, i);
      sumOuts := (sumOuts + w.outAmount[i]) % Q;
    }
    assert w.inAmount[..nInputs] == w.inAmount && w.outAmount[..nOutputs] == w.outAmount;
    ok := ok && sumIns == sumOuts;
  }

  /** The constraint system, written out. */
  lemma SatisfiesMeans(h2: Hash2, h3: Hash3, w: Signals, nInputs: nat, nOutputs: nat, levels: nat)
    requires Shaped(w, nInputs, nOutputs, levels)
    ensures Satisfies(h2, h3, w, nInputs, nOutputs, levels) <==>
              && (forall i :: 0 <= i < nInputs ==>
                    var commitment := h3(w.inAmount[i], w.inSecret[i], w.inRecipient[i]);
                    && w.nullifierHashes[i] == h2(commitment, w.inSecret[i])
                    && PathRoot(h2, commitment, w.inPathElements[i], w.inPathIndices[i]) == w.root)
              && (forall i :: 0 <= i < nOutputs ==>
                    w.outCommitments[i] == h3(w.outAmount[i], w.outSecret[i], w.outRecipient[i]))
              && Sum(w.inAmount) % Q == Sum(w.outAmount) % Q
  {
    hide PathRoot, Sum;
    forall i | 0 <= i < nInputs
      ensures InputHolds(h2, h3, w, i) <==>
              && w.nullifierHashes[i] == h2(h3(w.inAmount[i], w.inSecret[i], w.inRecipient[i]), w.inSecret[i])
              && PathRoot(h2, h3(w.inAmount[i], w.inSecret[i], w.inRecipient[i]), w.inPathElements[i], w.inPathIndices[i]) == w.root
    {
    }
    forall i | 0 <= i < nOutputs
      ensures OutputHolds(h3, w, i) <==> w.outCommitments[i] == h3(w.outAmount[i], w.outSecret[i], w.outRecipient[i])
    {
    }
  }

  lemma SumOfNone()
    ensures Sum([]) == 0
  {
  }

  /** The running field sum. */
  lemma NextSum(s: seq<Field>, i: nat)
    requires i < |s|
    ensures Sum(s[..i + 1]) % Q == (Sum(s[..i]) % Q + s[i]) % Q
  {
    SumPrefix(s, i);
    AddMod(Sum(s[..i]), s[i]);
  }

  /** A satisfying assignment whose two sums are below q conserves value over the integers. */
  lemma ConservesValue(h2: Hash2, h3: Hash3, w: Signals, nInputs: nat, nOutputs: nat, levels: nat)
    requires Satisfies(h2, h3, w, nInputs, nOutputs, levels)
    requires Sum(w.inAmount) < Q && Sum(w.outAmount) < Q
    ensures Sum(w.inAmount) == Sum(w.outAmount)
  {
    SumBounds(w.inAmount, Q);
    SumBounds(w.outAmount, Q);
  }

  /** Four amounts below q / 4 have such a sum. */
  lemma SmallAmounts(s: seq<Field>)
    requires |s| <= 4 && forall i :: 0 <= i < |s| ==> 4 * s[i] < Q
    ensures Sum(s) < Q
  {
    SumBounds(s, Q / 4);
    MulMonotone(Q / 4, |s|, 4);
  }

  /** The assignment with one output raised by 1, another, which was 0, lowered by 1 in the field, and their commitments recomputed. */
  function Wrapped(h3: Hash3, w: Signals, i: nat, j: nat): Signals
    requires i < |w.outAmount| == |w.outSecret| == |w.outRecipient| == |w.outCommitments|
    requires j < |w.outAmount| && w.outAmount[i] < Q - 1
  {
    var amounts: seq<Field> := w.outAmount[i := w.outAmount[i] + 1][j := Q - 1];
    w.(outAmount := amounts,
       outCommitments := w.outCommitments[i := h3(amounts[i], w.outSecret[i], w.outRecipient[i])]
                                         [j := h3(amounts[j], w.outSecret[j], w.outRecipient[j])])
  }

  /**
    The circuit bounds no amount, so the bound on the sums is needed: from any
    satisfying assignment with an output of 0 there is another whose output
    amounts are worth q more.
   */
  lemma OutputsCanWrap(h2: Hash2, h3: Hash3, w: Signals, nInputs: nat, nOutputs: nat, levels: nat, i: nat, j: nat)
    requires Satisfies(h2, h3, w, nInputs, nOutputs, levels)
    requires i < nOutputs && j < nOutputs && i != j
    requires w.outAmount[j] == 0 && w.outAmount[i] < Q - 1
    ensures Satisfies(h2, h3, Wrapped(h3, w, i, j), nInputs, nOutputs, levels)
    ensures Wrapped(h3, w, i, j).inAmount == w.inAmount
    ensures Sum(Wrapped(h3, w, i, j).outAmount) == Sum(w.outAmount) + Q
  {
    hide Sum;
    var x := Wrapped(h3, w, i, j);
    var one: seq<Field> := w.outAmount[i := w.outAmount[i] + 1];
    SumUpdate(w.outAmount, i, w.outAmount[i] + 1);
    SumUpdate(one, j, Q - 1);
    AddMultiple(Sum(w.outAmount), 1);
    forall k | 0 <= k < nInputs
      ensures InputHolds(h2, h3, x, k)
    {
      assert InputHolds(h2, h3, w, k);
    }
    forall k | 0 <= k < nOutputs
      ensures OutputHolds(h3, x, k)
    {
      assert OutputHolds(h3, w, k);
    }
  }

  // ---- which bounds conserve value ------------------------------------------------------------------

  /** Every satisfying assignment with amounts up to the bound conserves value over the integers. */
  ghost predicate Conserves(h2: Hash2, h3: Hash3, nInputs: nat, nOutputs: nat, levels: nat, bound: nat) {
    forall w: Signals ::
      Satisfies(h2, h3, w, nInputs, nOutputs, levels) && UpTo(w.inAmount, bound) && UpTo(w.outAmount, bound) ==>
        Sum(w.inAmount) == Sum(w.outAmount)
  }

  ghost predicate UpTo(s: seq<Field>, bound: nat) {
    forall i :: 0 <= i < |s| ==> s[i] <= bound
  }

  /**
    Whatever the hashes and the depth, with at least as many outputs as inputs:
    a bound on the amounts conserves value exactly when the outputs cannot reach q.
   */
  lemma ConservesExactly(h2: Hash2, h3: Hash3, nInputs: nat, nOutputs: nat, levels: nat, bound: nat)
    requires bound < Q && nInputs <= nOutputs
    ensures Conserves(h2, h3, nInputs, nOutputs, levels, bound) <==> nOutputs * bound < Q
  {
    hide Sum, Satisfies;
    if nOutputs * bound < Q {
      forall w: Signals
        | Satisfies(h2, h3, w, nInputs, nOutputs, levels) && UpTo(w.inAmount, bound) && UpTo(w.outAmount, bound)
        ensures Sum(w.inAmount) == Sum(w.outAmount)
      {
        SizesOf(h2, h3, w, nInputs, nOutputs, levels);
        SumBounds(w.inAmount, bound);
        SumBounds(w.outAmount, bound);
        MulMonotone(bound, nInputs, nOutputs);
        ConservesValue(h2, h3, w, nInputs, nOutputs, levels);
      }
    } else {
      var w := Minting(h2, h3, nInputs, nOutputs, levels, bound);
    }
  }

  /** The circuit as it is instantiated: amounts up to the bound conserve value exactly when four of them stay below q. */
  lemma FourNotesConserve(h2: Hash2, h3: Hash3, levels: nat, bound: nat)
    requires bound < Q
    ensures Conserves(h2, h3, 4, 4, levels, bound) <==> 4 * bound < Q
  {
    ConservesExactly(h2, h3, 4, 4, levels, bound);
  }

  lemma SizesOf(h2: Hash2, h3: Hash3, w: Signals, nInputs: nat, nOutputs: nat, levels: nat)
    requires Satisfies(h2, h3, w, nInputs, nOutputs, levels)
    ensures |w.inAmount| == nInputs && |w.outAmount| == nOutputs
  {
  }

  /** A total handed out in portions up to a bound. */
  function Portions(total: nat, n: nat, bound: nat): (s: seq<Field>)
    requires bound < Q
    ensures |s| == n && UpTo(s, bound)
    decreases n
  {
    if n == 0 then []
    else
      var first: Field := if total < bound then total else bound;
      [first] + Portions(total - first, n - 1, bound)
  }

  lemma {:induction false} PortionsSum(total: nat, n: nat, bound: nat)
    requires bound < Q && total <= n * bound
    ensures Sum(Portions(total, n, bound)) == total
    decreases n
  {
    if n > 0 {
      var first := if total < bound then total else bound;
      assert n * bound == bound + (n - 1) * bound;
      PortionsSum(total - first, n - 1, bound);
      assert Portions(total, n, bound)[1..] == Portions(total - first, n - 1, bound);
    }
  }

  function Copied<T>(n: nat, x: T): (s: seq<T>)
    ensures |s| == n && forall i :: 0 <= i < n ==> s[i] == x
  {
    seq(n, _ => x)
  }

  function Commitments(h3: Hash3, amounts: seq<Field>): (s: seq<Field>)
    ensures |s| == |amounts| && forall i :: 0 <= i < |s| ==> s[i] == h3(amounts[i], 0, 0)
  {
    seq<Field>(|amounts|, i requires 0 <= i < |amounts| => h3(amounts[i], 0, 0))
  }

  /** Spending empty notes on a path of zeros and paying out the given amounts. */
  function FromNothing(h2: Hash2, h3: Hash3, nInputs: nat, levels: nat, amounts: seq<Field>): Signals {
    var zeros := Copied<Field>(levels, 0);
    var c: Field := h3(0, 0, 0);
    var none := Copied<Field>(nInputs, 0);
    Signals(
      PathRoot(h2, c, zeros, zeros), Copied<Field>(nInputs, h2(c, 0)), Commitments(h3, amounts),
      none, none, none, Copied(nInputs, zeros), Copied(nInputs, zeros),
      amounts, Copied<Field>(|amounts|, 0), Copied<Field>(|amounts|, 0))
  }

  /** If the outputs can reach q, the circuit accepts outputs worth q from inputs worth nothing. */
  lemma Minting(h2: Hash2, h3: Hash3, nInputs: nat, nOutputs: nat, levels: nat, bound: nat) returns (w: Signals)
    requires bound < Q && Q <= nOutputs * bound
    ensures Satisfies(h2, h3, w, nInputs, nOutputs, levels) && UpTo(w.inAmount, bound) && UpTo(w.outAmount, bound)
    ensures Sum(w.inAmount) == 0 && Sum(w.outAmount) == Q
  {
    hide Sum, PathRoot, Portions;
    var amounts := Portions(Q, nOutputs, bound);
    PortionsSum(Q, nOutputs, bound);
    w := FromNothing(h2, h3, nInputs, levels, amounts);
    SumBounds(w.inAmount, 0);
    forall i | 0 <= i < nInputs
      ensures InputHolds(h2, h3, w, i)
    {
    }
  }

  // ---- spending twice -------------------------------------------------------------------------------

  /**
    Two inputs, of one satisfying assignment or of two, that spend at the same
    position of the same tree, none of the selectors being 1/2: they spend the
    same note and publish the same nullifier, or two different notes have one
    commitment, or the two paths contain a hash collision.
   */
  lemma SamePositionSameNote(h2: Hash2, h3: Hash3, w1: Signals, n1: nat, m1: nat, i: nat,
                             w2: Signals, n2: nat, m2: nat, j: nat, levels: nat) returns (level: nat)
    requires Satisfies(h2, h3, w1, n1, m1, levels) && Satisfies(h2, h3, w2, n2, m2, levels)
    requires i < n1 && j < n2 && w1.root == w2.root
    requires w1.inPathIndices[i] == w2.inPathIndices[j] && Separating(w1.inPathIndices[i])
    ensures var x, y := (w1.inAmount[i], w1.inSecret[i], w1.inRecipient[i]), (w2.inAmount[j], w2.inSecret[j], w2.inRecipient[j]);
            var c1, c2 := h3(x.0, x.1, x.2), h3(y.0, y.1, y.2);
            || (x == y && w1.nullifierHashes[i] == w2.nullifierHashes[j])
            || (x != y && c1 == c2)
            || (level < levels
                && Collides(h2, InputsAt(h2, c1, w1.inPathElements[i], w1.inPathIndices[i], level),
                            InputsAt(h2, c2, w2.inPathElements[j], w2.inPathIndices[j], level)))
  {
    var c1 := h3(w1.inAmount[i], w1.inSecret[i], w1.inRecipient[i]);
    var c2 := h3(w2.inAmount[j], w2.inSecret[j], w2.inRecipient[j]);
    assert InputHolds(h2, h3, w1, i) && InputHolds(h2, h3, w2, j);
    level := 0;
    if c1 != c2 {
      level := Binding(h2, c1, w1.inPathElements[i], c2, w2.inPathElements[j], w1.inPathIndices[i]);
    }
  }
}
