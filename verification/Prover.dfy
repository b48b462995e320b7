/**
  The client-side prover: the checks it makes before producing a proof, and how
  they compare with the constraints of the circuit.
 */
module Prover {
  import opened Wrappers
  import opened Modulus
  import opened Merkle
  import opened Sums
  import opened Transaction
  import opened CircuitAdapter

  /** An amount as it is given: its text, empty when it is absent, and the integer BigInt makes of it. */
  datatype Amount = Amount(text: string, number: int)

  datatype CommitmentInput = CommitmentInput(commitment: Field, value: Amount, secret: Field, recipient: Field,
                                             merkleProof: seq<Field>, leafIndex: int)

  datatype CommitmentOutput = CommitmentOutput(value: Amount, secret: Field, recipient: Field)

  datatype ProofError = NotInitialized | NoInputs | NoOutputs | InvalidMerkleProof | Unbalanced

  datatype PublicInputs = PublicInputs(merkleRoot: Field, nullifiers: seq<Field>, commitments: seq<Field>, publicAmount: string)

  function InValues(inputs: seq<CommitmentInput>): (s: seq<int>)
    ensures |s| == |inputs| && forall i :: 0 <= i < |s| ==> s[i] == inputs[i].value.number
  {
    seq(|inputs|, i requires 0 <= i < |inputs| => inputs[i].value.number)
  }

  function OutValues(outputs: seq<CommitmentOutput>): (s: seq<int>)
    ensures |s| == |outputs| && forall i :: 0 <= i < |s| ==> s[i] == outputs[i].value.number
  {
    seq(|outputs|, i requires 0 <= i < |outputs| => outputs[i].value.number)
  }

  /** The prover hashes the secret before the commitment. */
  function NullifiersOf(h2: Hash2, inputs: seq<CommitmentInput>): (s: seq<Field>)
    ensures |s| == |inputs|
  {
    seq<Field>(|inputs|, i requires 0 <= i < |inputs| => h2(inputs[i].secret, inputs[i].commitment))
  }

  function CommitmentsOf(h3: Hash3, outputs: seq<CommitmentOutput>): (s: seq<Field>)
    ensures |s| == |outputs|
  {
    seq<Field>(|outputs|, i requires 0 <= i < |outputs| => h3(outputs[i].value.number % Q, outputs[i].secret, outputs[i].recipient))
  }

  /** The leaf index and the path of an input lead from its stated commitment to the root. */
  predicate Opens(h2: Hash2, input: CommitmentInput, root: Field) {
    PathRoot(h2, input.commitment, input.merkleProof, IndexBits(input.leafIndex, |input.merkleProof|)) == root
  }

  /** The amount is compared with nothing and with '0' as text: any other spelling of zero counts as an amount. */
  predicate NamesAmount(a: Amount) {
    a.text != "" && a.text != "0"
  }

  predicate Balanced(inputs: seq<CommitmentInput>, outputs: seq<CommitmentOutput>, publicAmount: int) {
    Sum(InValues(inputs)) == Sum(OutValues(outputs)) + publicAmount
  }

  /** `generateTransferProof` up to the proof itself: every check, in order, and the public inputs. */
  method GenerateTransferProof(initialized: bool, h2: Hash2, h3: Hash3, inputs: seq<CommitmentInput>,
                               outputs: seq<CommitmentOutput>, root: Field, publicAmount: Amount)
      returns (r: Result<PublicInputs, ProofError>)
    ensures r.Ok? <==>
              && initialized && inputs != [] && (outputs != [] || (publicAmount.text != "" && publicAmount.text != "0"))
              && (forall i :: 0 <= i < |inputs| ==> Opens(h2, inputs[i], root))
              && Balanced(inputs, outputs, publicAmount.number)
    ensures r.Ok? ==> r.value == PublicInputs(root, NullifiersOf(h2, inputs), CommitmentsOf(h3, outputs),
                                              if publicAmount.text == "" then "0" else publicAmount.text)
    ensures r.Ok? ==>
              && |r.value.nullifiers| == |inputs| && |r.value.commitments| == |outputs|
              && (forall i :: 0 <= i < |inputs| ==>
                    && r.value.nullifiers[i] == h2(inputs[i].secret, inputs[i].commitment)
                    && PathRoot(h2, inputs[i].commitment, inputs[i].merkleProof,
                                IndexBits(inputs[i].leafIndex, |inputs[i].merkleProof|)) == root)
              && (forall i :: 0 <= i < |outputs| ==>
                    r.value.commitments[i] == h3(outputs[i].value.number % Q, outputs[i].secret, outputs[i].recipient))
              && Sum(InValues(inputs)) == Sum(OutValues(outputs)) + publicAmount.number
    ensures r.Err? && r.error.NotInitialized? <==> !initialized
    ensures r.Err? && r.error.NoInputs? <==> initialized && inputs == []
    ensures r.Err? && r.error.NoOutputs? <==>
              initialized && inputs != [] && outputs == [] && (publicAmount.text == "" || publicAmount.text == "0")
    ensures r.Err? && r.error.InvalidMerkleProof? ==>
              exists i :: 0 <= i < |inputs|
                && PathRoot(h2, inputs[i].commitment, inputs[i].merkleProof,
                            IndexBits(inputs[i].leafIndex, |inputs[i].merkleProof|)) != root
    ensures r.Err? && r.error.Unbalanced? ==>
              && (forall i :: 0 <= i < |inputs| ==> Opens(h2, inputs[i], root))
              && Sum(InValues(inputs)) != Sum(OutValues(outputs)) + publicAmount.number
  {
    hide PathRoot, IndexBits, Sum;
    if !initialized { return Err(NotInitialized); }
    if |inputs| == 0 { return Err(NoInputs); }
    if |outputs| == 0 && (publicAmount.text == "" || publicAmount.text == "0") { return Err(NoOutputs); }
    for i := 0 to |inputs|
      invariant forall k :: 0 <= k < i ==> Opens(h2, inputs[k], root)
    {
      var isValid := VerifyMerkleProof(h2, inputs[i].commitment, inputs[i].merkleProof, root, inputs[i].leafIndex);
      if !isValid {
        assert !Opens(h2, inputs[i], root);
        return Err(InvalidMerkleProof);
      }
    }
    if Sum(InValues(inputs)) != Sum(OutValues(outputs)) + publicAmount.number { return Err(ProofError.Unbalanced); }
    return Ok(PublicInputs(root, NullifiersOf(h2, inputs), CommitmentsOf(h3, outputs),
                           if publicAmount.text == "" then "0" else publicAmount.text));
  }

  // ---- against the circuit -----------------------------------------------------------------------------

  /** The circuit's signals for a transfer, with the prover's public inputs, hashed by the prover. */
  function TransferSignals(h2: Hash2, h3: Hash3, inputs: seq<CommitmentInput>, outputs: seq<CommitmentOutput>,
                           root: Field): Signals
  {
    Signals(
      root, NullifiersOf(h2, inputs), CommitmentsOf(h3, outputs),
      Residues(InValues(inputs)),
      seq(|inputs|, i requires 0 <= i < |inputs| => inputs[i].secret),
      seq(|inputs|, i requires 0 <= i < |inputs| => inputs[i].recipient),
      seq(|inputs|, i requires 0 <= i < |inputs| => inputs[i].merkleProof),
      seq(|inputs|, i requires 0 <= i < |inputs| => IndexBits(inputs[i].leafIndex, |inputs[i].merkleProof|)),
      Residues(OutValues(outputs)),
      seq(|outputs|, i requires 0 <= i < |outputs| => outputs[i].secret),
      seq(|outputs|, i requires 0 <= i < |outputs| => outputs[i].recipient))
  }

  ghost predicate CommitmentMatches(h3: Hash3, input: CommitmentInput) {
    input.commitment == h3(input.value.number % Q, input.secret, input.recipient)
  }

  ghost predicate Accepted(h2: Hash2, inputs: seq<CommitmentInput>, outputs: seq<CommitmentOutput>, root: Field,
                           publicAmount: int, levels: nat) {
    && (forall i :: 0 <= i < |inputs| ==> Opens(h2, inputs[i], root) && |inputs[i].merkleProof| == levels)
    && Balanced(inputs, outputs, publicAmount)
  }

  /** The circuit's hashes give the published nullifier and the root for the note of an input. */
  ghost predicate InputAgrees(p2: Hash2, h2: Hash2, h3: Hash3, input: CommitmentInput, root: Field) {
    var c := h3(input.value.number % Q, input.secret, input.recipient);
    && h2(c, input.secret) == p2(input.secret, input.commitment)
    && PathRoot(h2, c, input.merkleProof, IndexBits(input.leafIndex, |input.merkleProof|)) == root
  }

  ghost predicate OutputAgrees(p3: Hash3, h3: Hash3, output: CommitmentOutput) {
    var amount: Field := output.value.number % Q;
    h3(amount, output.secret, output.recipient) == p3(amount, output.secret, output.recipient)
  }

  /**
    The prover hashes with p2 and p3, the circuit with h2 and h3. What the prover
    accepts satisfies the circuit exactly when the public amount vanishes in the
    field and the hashes agree on every input and output.
   */
  lemma AcceptedMeetsCircuit(p2: Hash2, p3: Hash3, h2: Hash2, h3: Hash3, inputs: seq<CommitmentInput>,
                             outputs: seq<CommitmentOutput>, root: Field, publicAmount: int, levels: nat)
    requires Accepted(p2, inputs, outputs, root, publicAmount, levels)
    ensures Satisfies(h2, h3, TransferSignals(p2, p3, inputs, outputs, root), |inputs|, |outputs|, levels) <==>
            && publicAmount % Q == 0
            && (forall i :: 0 <= i < |inputs| ==> InputAgrees(p2, h2, h3, inputs[i], root))
            && (forall i :: 0 <= i < |outputs| ==> OutputAgrees(p3, h3, outputs[i]))
  {
    hide Balanced, PathRoot, IndexBits;
    var w := TransferSignals(p2, p3, inputs, outputs, root);
    BalanceOfSignals(inputs, outputs, publicAmount);
    assert Shaped(w, |inputs|, |outputs|, levels);
    forall i | 0 <= i < |inputs|
      ensures InputHolds(h2, h3, w, i) <==> InputAgrees(p2, h2, h3, inputs[i], root)
    {
    }
    forall i | 0 <= i < |outputs|
      ensures OutputHolds(h3, w, i) <==> OutputAgrees(p3, h3, outputs[i])
    {
    }
  }

  /**
    Even with one pair of hashes, and every stated commitment that of its note,
    the two agree only where swapping the nullifier's arguments does not change it.
   */
  lemma SwappedNullifiers(h2: Hash2, h3: Hash3, inputs: seq<CommitmentInput>, outputs: seq<CommitmentOutput>,
                          root: Field, publicAmount: int, levels: nat)
    requires Accepted(h2, inputs, outputs, root, publicAmount, levels)
    requires forall i :: 0 <= i < |inputs| ==> CommitmentMatches(h3, inputs[i])
    ensures Satisfies(h2, h3, TransferSignals(h2, h3, inputs, outputs, root), |inputs|, |outputs|, levels) <==>
            && publicAmount % Q == 0
            && forall i :: 0 <= i < |inputs| ==>
                 h2(inputs[i].secret, inputs[i].commitment) == h2(inputs[i].commitment, inputs[i].secret)
  {
    hide Satisfies, Balanced, PathRoot, IndexBits;
    AcceptedMeetsCircuit(h2, h3, h2, h3, inputs, outputs, root, publicAmount, levels);
    forall i | 0 <= i < |inputs|
      ensures InputAgrees(h2, h2, h3, inputs[i], root) <==>
              h2(inputs[i].secret, inputs[i].commitment) == h2(inputs[i].commitment, inputs[i].secret)
    {
      assert CommitmentMatches(h3, inputs[i]) && Opens(h2, inputs[i], root);
    }
    assert forall i :: 0 <= i < |outputs| ==> OutputAgrees(h3, h3, outputs[i]);
  }

  lemma BalanceOfSignals(inputs: seq<CommitmentInput>, outputs: seq<CommitmentOutput>, publicAmount: int)
    requires Balanced(inputs, outputs, publicAmount)
    ensures Sum(Residues(InValues(inputs))) % Q == Sum(Residues(OutValues(outputs))) % Q <==> publicAmount % Q == 0
  {
    SumOfResidues(InValues(inputs));
    SumOfResidues(OutValues(outputs));
    Shifted(Sum(OutValues(outputs)), publicAmount);
  }

  lemma Shifted(x: int, p: int)
    ensures (x + p) % Q == x % Q <==> p % Q == 0
  {
    AddMod(x, p);
  }

  /**
    The prover never checks a stated commitment against its note. If it accepts
    one that is not the circuit's hash of the note, and the circuit accepts the
    note, then at some level of the path two different pairs have one digest, one
    under the prover's hash and one under the circuit's.
   */
  lemma WrongCommitmentCollides(p2: Hash2, p3: Hash3, h2: Hash2, h3: Hash3, inputs: seq<CommitmentInput>,
                                outputs: seq<CommitmentOutput>, root: Field, publicAmount: int, levels: nat, i: nat)
      returns (level: nat)
    requires Accepted(p2, inputs, outputs, root, publicAmount, levels)
    requires Satisfies(h2, h3, TransferSignals(p2, p3, inputs, outputs, root), |inputs|, |outputs|, levels)
    requires i < |inputs| && !CommitmentMatches(h3, inputs[i])
    ensures level < levels
    ensures var e, bits := inputs[i], IndexBits(inputs[i].leafIndex, levels);
            CrossCollides(p2, InputsAt(p2, e.commitment, e.merkleProof, bits, level),
                          h2, InputsAt(h2, h3(e.value.number % Q, e.secret, e.recipient), e.merkleProof, bits, level))
  {
    hide Balanced, PathRoot, IndexBits, InputsAt, CrossCollides;
    var e := inputs[i];
    assert Opens(p2, e, root);
    assert InputHolds(h2, h3, TransferSignals(p2, p3, inputs, outputs, root), i);
    IndexBitsBoolean(e.leafIndex, levels);
    BooleanSeparates(IndexBits(e.leafIndex, levels));
    level := CrossBinding(p2, e.commitment, e.merkleProof, h2, h3(e.value.number % Q, e.secret, e.recipient),
                          e.merkleProof, IndexBits(e.leafIndex, levels));
  }

  /** A withdrawal is a transfer of one note without outputs: only the spelling of its value and its path are looked at. */
  method GenerateWithdrawProof(initialized: bool, h2: Hash2, h3: Hash3, input: CommitmentInput, root: Field)
      returns (r: Result<PublicInputs, ProofError>)
    ensures r.Ok? <==> initialized && NamesAmount(input.value) && Opens(h2, input, root)
    ensures r.Ok? ==> input.value.text != "" && input.value.text != "0"
    ensures r.Ok? ==> r.value == PublicInputs(root, [h2(input.secret, input.commitment)], [], input.value.text)
    ensures r.Err? && r.error.NotInitialized? <==> !initialized
    ensures r.Err? && r.error.NoOutputs? <==> initialized && (input.value.text == "" || input.value.text == "0")
    ensures r.Err? ==> r.error.NotInitialized? || r.error.NoOutputs? || r.error.InvalidMerkleProof?
  {
    assert InValues([input]) == [input.value.number] && [input.value.number][1..] == [];
    r := GenerateTransferProof(initialized, h2, h3, [input], [], root, input.value);
    assert [input][0] == input;
  }

  /** A withdrawal of nothing is refused when it is spelled 0 and accepted when it is spelled 00. */
  method ZeroWithdrawalExample(h2: Hash2, h3: Hash3, c: Field) returns (plain: Result<PublicInputs, ProofError>, padded: Result<PublicInputs, ProofError>)
    ensures plain.Err? && padded.Ok?
  {
    plain := GenerateWithdrawProof(true, h2, h3, CommitmentInput(c, Amount("0", 0), 0, 0, [], 0), c);
    padded := GenerateWithdrawProof(true, h2, h3, CommitmentInput(c, Amount("00", 0), 0, 0, [], 0), c);
  }
}
