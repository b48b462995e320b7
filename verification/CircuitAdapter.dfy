/**
  The client's circuit adapter: padding, preparing and validating the circuit
  input. Amounts, secrets and hash strings are the integers their decimal text
  denotes; the witness calculator reduces them modulo q.
 */
module CircuitAdapter {
  import opened Wrappers
  import opened Modulus
  import opened Merkle
  import opened Sums
  import opened Transaction

  const MAX_INPUTS: nat := 4
  const MAX_OUTPUTS: nat := 4
  const MERKLE_TREE_DEPTH: nat := 20

  datatype ApplicationNote = ApplicationNote(amount: int, secret: int, recipient: int, commitment: Option<int>)

  datatype MerkleProofData = MerkleProofData(root: int, pathElements: seq<int>, pathIndices: seq<int>)

  datatype CircuitInput = CircuitInput(
    root: int, nullifierHashes: seq<int>, outCommitments: seq<int>,
    inAmount: seq<int>, inSecret: seq<int>, inRecipient: seq<int>,
    inPathElements: seq<seq<int>>, inPathIndices: seq<seq<int>>,
    outAmount: seq<int>, outSecret: seq<int>, outRecipient: seq<int>)

  /** What preparation returns: the padded input, and the nullifiers and commitments without padding. */
  datatype Preparation = Preparation(circuitInput: CircuitInput, nullifiers: seq<int>, outCommitments: seq<int>)

  datatype PrepareError = InputCount | OutputCount | ProofCount | Unbalanced

  // ---- hashing and padding --------------------------------------------------------------------

  /** Text is reduced modulo q before it is hashed. */
  function ComputeCommitment(h3: Hash3, amount: int, secret: int, recipient: int): Field {
    h3(amount % Q, secret % Q, recipient % Q)
  }

  function ComputeNullifier(h2: Hash2, commitment: int, secret: int): Field {
    h2(commitment % Q, secret % Q)
  }

  function Pad<T>(arr: seq<T>, size: nat, defaultValue: T): (padded: seq<T>)
    ensures |padded| == if |arr| < size then size else |arr|
    ensures forall i :: 0 <= i < |padded| ==> padded[i] == if i < |arr| then arr[i] else defaultValue
  {
    arr + seq(if |arr| < size then size - |arr| else 0, _ => defaultValue)
  }

  method PadArray<T>(arr: seq<T>, size: nat, defaultValue: T) returns (padded: seq<T>)
    ensures padded == Pad(arr, size, defaultValue)
    ensures |padded| == (if |arr| < size then size else |arr|) && arr <= padded
    ensures forall i :: |arr| <= i < |padded| ==> padded[i] == defaultValue
  {
    padded := arr;
    while |padded| < size
      invariant |padded| <= size || padded == arr
      invariant padded == arr + seq(|padded| - |arr|, _ => defaultValue)
    {
      padded := padded + [defaultValue];
    }
  }

  // ---- field extraction --------------------------------------------------------------------------

  function Amounts(notes: seq<ApplicationNote>): (s: seq<int>)
    ensures |s| == |notes| && forall i :: 0 <= i < |s| ==> s[i] == notes[i].amount
  {
    seq(|notes|, i requires 0 <= i < |notes| => notes[i].amount)
  }

  function Secrets(notes: seq<ApplicationNote>): seq<int> {
    seq(|notes|, i requires 0 <= i < |notes| => notes[i].secret)
  }

  function Recipients(notes: seq<ApplicationNote>): seq<int> {
    seq(|notes|, i requires 0 <= i < |notes| => notes[i].recipient)
  }

  /** The commitment a note carries, or the one computed from its fields. */
  function CommitmentOf(h3: Hash3, n: ApplicationNote): int {
    match n.commitment
    case Some(c) => c
    case None => ComputeCommitment(h3, n.amount, n.secret, n.recipient)
  }

  function Nullifiers(h2: Hash2, h3: Hash3, notes: seq<ApplicationNote>): seq<int> {
    seq(|notes|, i requires 0 <= i < |notes| => ComputeNullifier(h2, CommitmentOf(h3, notes[i]), notes[i].secret))
  }

  function OutCommitments(h3: Hash3, notes: seq<ApplicationNote>): seq<int> {
    seq(|notes|, i requires 0 <= i < |notes| =>
      ComputeCommitment(h3, notes[i].amount, notes[i].secret, notes[i].recipient))
  }

  function Paths(proofs: seq<MerkleProofData>): seq<seq<int>> {
    seq(|proofs|, i requires 0 <= i < |proofs| => proofs[i].pathElements)
  }

  function Indices(proofs: seq<MerkleProofData>): seq<seq<int>> {
    seq(|proofs|, i requires 0 <= i < |proofs| => proofs[i].pathIndices)
  }

  // ---- preparing ------------------------------------------------------------------------------------

  /** The first check that fails, in the order they are made. */
  function PrepareCheck(inputs: seq<ApplicationNote>, outputs: seq<ApplicationNote>,
                        proofs: seq<MerkleProofData>): Option<PrepareError>
  {
    if |inputs| == 0 || |inputs| > MAX_INPUTS then Some(InputCount)
    else if |outputs| == 0 || |outputs| > MAX_OUTPUTS then Some(OutputCount)
    else if |proofs| != |inputs| then Some(ProofCount)
    else if Sum(Amounts(inputs)) != Sum(Amounts(outputs)) then Some(Unbalanced)
    else None
  }

  method PrepareCircuitInput(h2: Hash2, h3: Hash3, inputs: seq<ApplicationNote>, outputs: seq<ApplicationNote>,
                             proofs: seq<MerkleProofData>) returns (r: Result<Preparation, PrepareError>)
    ensures r.Err? <==> PrepareCheck(inputs, outputs, proofs).Some?
    ensures r.Err? ==> PrepareCheck(inputs, outputs, proofs) == Some(r.error)
    ensures r.Err? && r.error.InputCount? <==> |inputs| == 0 || |inputs| > 4
    ensures r.Err? && r.error.OutputCount? <==> 1 <= |inputs| <= 4 && (|outputs| == 0 || |outputs| > 4)
    ensures r.Err? && r.error.ProofCount? <==> 1 <= |inputs| <= 4 && 1 <= |outputs| <= 4 && |proofs| != |inputs|
    ensures r.Ok? <==> 1 <= |inputs| <= 4 && 1 <= |outputs| <= 4 && |proofs| == |inputs|
                       && Sum(Amounts(inputs)) == Sum(Amounts(outputs))
    ensures r.Ok? ==>
              && r.value.circuitInput == Prepared(h2, h3, inputs, outputs, proofs)
              && r.value.circuitInput.root == proofs[0].root
    ensures r.Ok? ==>
              var c := r.value.circuitInput;
              && |c.inAmount| == |c.inSecret| == |c.inRecipient| == |c.inPathElements| == |c.inPathIndices| == 4
              && forall i :: 0 <= i < |inputs| ==>
                   && c.inAmount[i] == inputs[i].amount && c.inSecret[i] == inputs[i].secret
                   && c.inRecipient[i] == inputs[i].recipient
                   && c.inPathElements[i] == proofs[i].pathElements && c.inPathIndices[i] == proofs[i].pathIndices
    ensures r.Ok? ==>
              var c := r.value.circuitInput;
              && |c.outCommitments| == |c.outAmount| == |c.outSecret| == |c.outRecipient| == 4
              && (forall i :: 0 <= i < |outputs| ==>
                   && c.outAmount[i] == outputs[i].amount && c.outSecret[i] == outputs[i].secret
                   && c.outRecipient[i] == outputs[i].recipient
                   && c.outCommitments[i] == h3(outputs[i].amount % Q, outputs[i].secret % Q, outputs[i].recipient % Q))
              && forall i :: |outputs| <= i < 4 ==> c.outCommitments[i] == 0
    ensures r.Ok? ==> |r.value.nullifiers| == |inputs| && r.value.nullifiers <= r.value.circuitInput.nullifierHashes
    ensures r.Ok? ==> |r.value.outCommitments| == |outputs| && r.value.outCommitments <= r.value.circuitInput.outCommitments
  {
    if |inputs| == 0 || |inputs| > MAX_INPUTS { return Err(InputCount); }
    if |outputs| == 0 || |outputs| > MAX_OUTPUTS { return Err(OutputCount); }
    if |proofs| != |inputs| { return Err(ProofCount); }
    if Sum(Amounts(inputs)) != Sum(Amounts(outputs)) { return Err(Unbalanced); }

    var emptyPath := seq(MERKLE_TREE_DEPTH, _ => 0);
    var nullifiers := PadArray(Nullifiers(h2, h3, inputs), MAX_INPUTS, 0);
    var outCommitments := PadArray(OutCommitments(h3, outputs), MAX_OUTPUTS, 0);
    var inAmounts := PadArray(Amounts(inputs), MAX_INPUTS, 0);
    var inSecrets := PadArray(Secrets(inputs), MAX_INPUTS, 0);
    var inRecipients := PadArray(Recipients(inputs), MAX_INPUTS, 0);
    var paths := PadArray(Paths(proofs), MAX_INPUTS, emptyPath);
    var indices := PadArray(Indices(proofs), MAX_INPUTS, emptyPath);
    var outAmounts := PadArray(Amounts(outputs), MAX_OUTPUTS, 0);
    var outSecrets := PadArray(Secrets(outputs), MAX_OUTPUTS, 0);
    var outRecipients := PadArray(Recipients(outputs), MAX_OUTPUTS, 0);
    var input := CircuitInput(proofs[0].root, nullifiers, outCommitments, inAmounts, inSecrets, inRecipients,
                              paths, indices, outAmounts, outSecrets, outRecipients);
    PreparedInputs(h2, h3, inputs, outputs, proofs, input);
    PreparedOutputs(h2, h3, inputs, outputs, proofs, input);
    r := Ok(Preparation(input, Nullifiers(h2, h3, inputs), OutCommitments(h3, outputs)));
  }

  lemma ResidueOfResidue()
    ensures forall x: Field :: x % Q == x
  {
  }

  function Prepared(h2: Hash2, h3: Hash3, inputs: seq<ApplicationNote>, outputs: seq<ApplicationNote>,
                    proofs: seq<MerkleProofData>): CircuitInput
    requires proofs != []
  {
    var emptyPath := seq(MERKLE_TREE_DEPTH, _ => 0);
    CircuitInput(
      proofs[0].root,
      Pad(Nullifiers(h2, h3, inputs), MAX_INPUTS, 0), Pad(OutCommitments(h3, outputs), MAX_OUTPUTS, 0),
      Pad(Amounts(inputs), MAX_INPUTS, 0), Pad(Secrets(inputs), MAX_INPUTS, 0), Pad(Recipients(inputs), MAX_INPUTS, 0),
      Pad(Paths(proofs), MAX_INPUTS, emptyPath), Pad(Indices(proofs), MAX_INPUTS, emptyPath),
      Pad(Amounts(outputs), MAX_OUTPUTS, 0), Pad(Secrets(outputs), MAX_OUTPUTS, 0), Pad(Recipients(outputs), MAX_OUTPUTS, 0))
  }

  /** The input half, field by field: the notes' own fields, their nullifiers and paths, and zeros in the free slots. */
  lemma PreparedInputs(h2: Hash2, h3: Hash3, inputs: seq<ApplicationNote>, outputs: seq<ApplicationNote>,
                       proofs: seq<MerkleProofData>, c: CircuitInput)
    requires 1 <= |inputs| == |proofs| <= 4 && c == Prepared(h2, h3, inputs, outputs, proofs)
    ensures c.root == proofs[0].root
    ensures |c.nullifierHashes| == |c.inAmount| == |c.inSecret| == |c.inRecipient| == 4
    ensures |c.inPathElements| == |c.inPathIndices| == 4
    ensures forall i :: 0 <= i < |inputs| ==>
              && c.inAmount[i] == inputs[i].amount && c.inSecret[i] == inputs[i].secret
              && c.inRecipient[i] == inputs[i].recipient
              && c.inPathElements[i] == proofs[i].pathElements && c.inPathIndices[i] == proofs[i].pathIndices
              && c.nullifierHashes[i]
                 == h2(match inputs[i].commitment
                       case Some(commitment) => commitment % Q
                       case None => h3(inputs[i].amount % Q, inputs[i].secret % Q, inputs[i].recipient % Q),
                       inputs[i].secret % Q)
    ensures forall i :: |inputs| <= i < 4 ==>
              && c.inAmount[i] == 0 && c.inSecret[i] == 0 && c.inRecipient[i] == 0 && c.nullifierHashes[i] == 0
              && c.inPathElements[i] == seq(20, _ => 0) && c.inPathIndices[i] == seq(20, _ => 0)
  {
    ResidueOfResidue();
  }

  /** The output half. */
  lemma PreparedOutputs(h2: Hash2, h3: Hash3, inputs: seq<ApplicationNote>, outputs: seq<ApplicationNote>,
                        proofs: seq<MerkleProofData>, c: CircuitInput)
    requires proofs != [] && |outputs| <= 4 && c == Prepared(h2, h3, inputs, outputs, proofs)
    ensures |c.outCommitments| == |c.outAmount| == |c.outSecret| == |c.outRecipient| == 4
    ensures forall i :: 0 <= i < |outputs| ==>
              && c.outAmount[i] == outputs[i].amount && c.outSecret[i] == outputs[i].secret
              && c.outRecipient[i] == outputs[i].recipient
              && c.outCommitments[i] == h3(outputs[i].amount % Q, outputs[i].secret % Q, outputs[i].recipient % Q)
    ensures forall i :: |outputs| <= i < 4 ==>
              c.outAmount[i] == 0 && c.outSecret[i] == 0 && c.outRecipient[i] == 0 && c.outCommitments[i] == 0
  {
  }

  // ---- validating -------------------------------------------------------------------------------------

  datatype FieldName = Root | NullifierHashes | OutCommitmentsField | InAmount | InSecret | InRecipient
                     | InPathElements | InPathIndices | OutAmount | OutSecret | OutRecipient

  // In the order they are looked for.
  const REQUIRED_FIELDS: seq<FieldName> := [
    Root, NullifierHashes, OutCommitmentsField, InAmount, InSecret, InRecipient,
    InPathElements, InPathIndices, OutAmount, OutSecret, OutRecipient]

  datatype ShapeError = MissingField(field: FieldName)
                      | InAmountLength | InSecretLength | OutAmountLength | OutSecretLength
                      | PathCount | PathLength(index: nat)

  // The fields of a prepared input.
  const PREPARED_FIELDS: set<FieldName> := {
    Root, NullifierHashes, OutCommitmentsField, InAmount, InSecret, InRecipient,
    InPathElements, InPathIndices, OutAmount, OutSecret, OutRecipient}

  lemma EveryFieldRequired(f: FieldName)
    ensures f in REQUIRED_FIELDS && f in PREPARED_FIELDS
  {
    var r := REQUIRED_FIELDS;
    assert r[0] == Root && r[1] == NullifierHashes && r[2] == OutCommitmentsField && r[3] == InAmount;
    assert r[4] == InSecret && r[5] == InRecipient && r[6] == InPathElements && r[7] == InPathIndices;
    assert r[8] == OutAmount && r[9] == OutSecret && r[10] == OutRecipient;
  }

  /** `validateCircuitInput`: the checks it makes, and no others. */
  ghost predicate ShapeChecks(c: CircuitInput) {
    && |c.inAmount| == |c.inSecret| == |c.inPathElements| == MAX_INPUTS
    && |c.outAmount| == |c.outSecret| == MAX_OUTPUTS
    && forall i :: 0 <= i < |c.inPathElements| ==> |c.inPathElements[i]| == MERKLE_TREE_DEPTH
  }

  /** The first loop of the validation. */
  method MissingFields(present: set<FieldName>) returns (errors: seq<ShapeError>)
    ensures forall e :: e in errors ==> e.MissingField?
    ensures forall f :: MissingField(f) in errors <==> f !in present
    ensures errors == [] <==> forall f: FieldName :: f in present
  {
    errors := [];
    for k := 0 to |REQUIRED_FIELDS|
      invariant forall e :: e in errors ==> e.MissingField?
      invariant forall f :: MissingField(f) in errors <==> f in REQUIRED_FIELDS[..k] && f !in present
      invariant errors == [] <==> forall f :: f in REQUIRED_FIELDS[..k] ==> f in present
    {
      assert REQUIRED_FIELDS[..k + 1] == REQUIRED_FIELDS[..k] + [REQUIRED_FIELDS[k]];
      if REQUIRED_FIELDS[k] !in present {
        errors := errors + [MissingField(REQUIRED_FIELDS[k])];
      }
    }
    assert REQUIRED_FIELDS[..|REQUIRED_FIELDS|] == REQUIRED_FIELDS;
    forall f: FieldName
      ensures f in REQUIRED_FIELDS
    {
      EveryFieldRequired(f);
    }
  }

  /** The value is an object that may lack fields: only those in `present` are there. */
  method ValidateCircuitInput(c: CircuitInput, present: set<FieldName>) returns (errors: seq<ShapeError>)
    ensures errors == [] <==> ShapeChecks(c) && forall f: FieldName :: f in present
    ensures forall f :: MissingField(f) in errors <==> f !in present
    ensures InAmountLength in errors <==> InAmount !in present || |c.inAmount| != 4
    ensures InSecretLength in errors <==> InSecret !in present || |c.inSecret| != 4
    ensures OutAmountLength in errors <==> OutAmount !in present || |c.outAmount| != 4
    ensures OutSecretLength in errors <==> OutSecret !in present || |c.outSecret| != 4
    ensures PathCount in errors <==> InPathElements !in present || |c.inPathElements| != 4
    ensures forall i: nat :: PathLength(i) in errors <==>
              InPathElements in present && |c.inPathElements| == 4 && i < 4 && |c.inPathElements[i]| != 20
  {
    errors := MissingFields(present);
    errors := LengthErrors(c, present, errors);
    if InPathElements !in present || |c.inPathElements| != MAX_INPUTS {
      errors := Report(errors, true, PathCount);
    } else {
      errors := PathErrors(c, errors);
    }
  }

  /** The four checks of array lengths. */
  method LengthErrors(c: CircuitInput, present: set<FieldName>, before: seq<ShapeError>) returns (errors: seq<ShapeError>)
    requires forall e :: e in before ==> e.MissingField?
    ensures forall e: ShapeError :: e.MissingField? ==> (e in errors <==> e in before)
    ensures InAmountLength in errors <==> InAmount !in present || |c.inAmount| != MAX_INPUTS
    ensures InSecretLength in errors <==> InSecret !in present || |c.inSecret| != MAX_INPUTS
    ensures OutAmountLength in errors <==> OutAmount !in present || |c.outAmount| != MAX_OUTPUTS
    ensures OutSecretLength in errors <==> OutSecret !in present || |c.outSecret| != MAX_OUTPUTS
    ensures forall e :: e in errors ==> !e.PathCount? && !e.PathLength?
    ensures errors == [] <==>
              && before == [] && InAmount in present && InSecret in present && OutAmount in present && OutSecret in present
              && |c.inAmount| == |c.inSecret| == MAX_INPUTS && |c.outAmount| == |c.outSecret| == MAX_OUTPUTS
  {
    errors := Report(before, InAmount !in present || |c.inAmount| != MAX_INPUTS, InAmountLength);
    errors := Report(errors, InSecret !in present || |c.inSecret| != MAX_INPUTS, InSecretLength);
    errors := Report(errors, OutAmount !in present || |c.outAmount| != MAX_OUTPUTS, OutAmountLength);
    errors := Report(errors, OutSecret !in present || |c.outSecret| != MAX_OUTPUTS, OutSecretLength);
  }

  /** One check: the error is pushed if it failed. */
  method Report(before: seq<ShapeError>, failed: bool, error: ShapeError) returns (errors: seq<ShapeError>)
    ensures forall e :: e in errors <==> e in before || (failed && e == error)
    ensures errors == [] <==> before == [] && !failed
  {
    errors := if failed then before + [error] else before;
  }

  /** The loop over the paths. */
  method PathErrors(c: CircuitInput, before: seq<ShapeError>) returns (errors: seq<ShapeError>)
    requires |c.inPathElements| == MAX_INPUTS && forall i: nat :: PathLength(i) !in before
    ensures errors == [] <==> before == [] && forall i :: 0 <= i < MAX_INPUTS ==> |c.inPathElements[i]| == MERKLE_TREE_DEPTH
    ensures forall e: ShapeError :: !e.PathLength? ==> (e in errors <==> e in before)
    ensures forall i: nat :: PathLength(i) in errors <==> i < MAX_INPUTS && |c.inPathElements[i]| != MERKLE_TREE_DEPTH
  {
    errors := before;
    for i := 0 to |c.inPathElements|
      invariant forall e: ShapeError :: !e.PathLength? ==> (e in errors <==> e in before)
      invariant forall k: nat :: PathLength(k) in errors <==> k < i && |c.inPathElements[k]| != MERKLE_TREE_DEPTH
      invariant errors == [] <==> before == [] && forall k :: 0 <= k < i ==> |c.inPathElements[k]| == MERKLE_TREE_DEPTH
    {
      if |c.inPathElements[i]| != MERKLE_TREE_DEPTH {
        errors := errors + [PathLength(i)];
      }
    }
  }

  /** A prepared input passes the shape checks exactly when every given path has the circuit's depth. */
  lemma PreparedPassesShapeChecks(h2: Hash2, h3: Hash3, inputs: seq<ApplicationNote>, outputs: seq<ApplicationNote>,
                                  proofs: seq<MerkleProofData>)
    requires PrepareCheck(inputs, outputs, proofs).None?
    ensures ShapeChecks(Prepared(h2, h3, inputs, outputs, proofs)) <==>
            forall i :: 0 <= i < |proofs| ==> |proofs[i].pathElements| == 20
  {
    var c := Prepared(h2, h3, inputs, outputs, proofs);
    assert |c.inAmount| == 4 && |c.inSecret| == 4 && |c.outAmount| == 4 && |c.outSecret| == 4 && |c.inPathElements| == 4;
    assert forall i :: 0 <= i < |proofs| ==> c.inPathElements[i] == proofs[i].pathElements;
    assert forall i :: |proofs| <= i < 4 ==> |c.inPathElements[i]| == MERKLE_TREE_DEPTH;
  }

  // ---- what the prepared input means to the circuit ------------------------------------------------------

  function Residues(s: seq<int>): (r: seq<Field>)
    ensures |r| == |s|
    ensures forall i :: 0 <= i < |s| ==> r[i] == s[i] % Q
  {
    seq(|s|, i requires 0 <= i < |s| => s[i] % Q)
  }

  function ResiduesOfEach(s: seq<seq<int>>): (r: seq<seq<Field>>)
    ensures |r| == |s|
    ensures forall i :: 0 <= i < |s| ==> r[i] == Residues(s[i])
  {
    seq(|s|, i requires 0 <= i < |s| => Residues(s[i]))
  }

  /** The signals the witness calculator assigns from a circuit input. */
  function AsSignals(c: CircuitInput): Signals {
    Signals(c.root % Q, Residues(c.nullifierHashes), Residues(c.outCommitments),
            Residues(c.inAmount), Residues(c.inSecret), Residues(c.inRecipient),
            ResiduesOfEach(c.inPathElements), ResiduesOfEach(c.inPathIndices),
            Residues(c.outAmount), Residues(c.outSecret), Residues(c.outRecipient))
  }

  lemma {:induction false} SumOfResidues(s: seq<int>)
    ensures Sum(Residues(s)) % Q == Sum(s) % Q
  {
    if s != [] {
      assert Residues(s)[1..] == Residues(s[1..]);
      SumOfResidues(s[1..]);
      AddCongruent(s[0], Sum(Residues(s[1..])), Sum(s[1..]));
    }
  }

  lemma AddCongruent(x: int, y: int, z: int)
    requires y % Q == z % Q
    ensures (x % Q + y) % Q == (x + z) % Q
  {
    Congruent(x % Q + y, x + z, y / Q - z / Q - x / Q);
  }

  /** A Merkle proof that leads from a note's commitment to the shared root. */
  ghost predicate ProofValid(h2: Hash2, h3: Hash3, note: ApplicationNote, p: MerkleProofData, root: int) {
    && |p.pathElements| == |p.pathIndices| == MERKLE_TREE_DEPTH
    && CommitmentOf(h3, note) % Q == ComputeCommitment(h3, note.amount, note.secret, note.recipient)
    && p.root == root
    && PathRoot(h2, ComputeCommitment(h3, note.amount, note.secret, note.recipient),
                Residues(p.pathElements), Residues(p.pathIndices)) == root % Q
  }

  /** What the circuit asks of a padded input slot: the literal zeros must be hashes. */
  ghost predicate ZeroInputHolds(h2: Hash2, h3: Hash3, root: int) {
    var zeros := Residues(seq(MERKLE_TREE_DEPTH, _ => 0));
    h2(h3(0, 0, 0), 0) == 0 && PathRoot(h2, h3(0, 0, 0), zeros, zeros) == root % Q
  }

  /** What the circuit asks of a padded output slot. */
  ghost predicate ZeroOutputHolds(h3: Hash3) {
    h3(0, 0, 0) == 0
  }

  /**
    Notes with valid proofs: what is prepared satisfies the circuit exactly when
    the padded slots do. Four inputs and four outputs leave no padded slot, so
    then every constraint is satisfied.
   */
  lemma PreparedSatisfiesCircuit(h2: Hash2, h3: Hash3, inputs: seq<ApplicationNote>, outputs: seq<ApplicationNote>,
                                 proofs: seq<MerkleProofData>)
    requires PrepareCheck(inputs, outputs, proofs).None?
    requires forall i :: 0 <= i < |inputs| ==> ProofValid(h2, h3, inputs[i], proofs[i], proofs[0].root)
    ensures Satisfies(h2, h3, AsSignals(Prepared(h2, h3, inputs, outputs, proofs)), 4, 4, 20) <==>
            && (|inputs| < 4 ==> ZeroInputHolds(h2, h3, proofs[0].root))
            && (|outputs| < 4 ==> ZeroOutputHolds(h3))
  {
    hide InputHolds, OutputHolds, ZeroInputHolds;
    var c := Prepared(h2, h3, inputs, outputs, proofs);
    var w := AsSignals(c);
    PreparedShape(h2, h3, inputs, outputs, proofs);
    forall i | 0 <= i < 4
      ensures InputHolds(h2, h3, w, i) <==> i < |inputs| || ZeroInputHolds(h2, h3, proofs[0].root)
    {
      PreparedInput(h2, h3, inputs, outputs, proofs, i);
    }
    forall i | 0 <= i < 4
      ensures OutputHolds(h3, w, i) <==> i < |outputs| || ZeroOutputHolds(h3)
    {
      PreparedOutput(h2, h3, inputs, outputs, proofs, i);
    }
    PreparedBalance(h2, h3, inputs, outputs, proofs);
    if |inputs| < 4 { assert InputHolds(h2, h3, w, 3) <==> ZeroInputHolds(h2, h3, proofs[0].root); }
    if |outputs| < 4 { assert OutputHolds(h3, w, 3) <==> ZeroOutputHolds(h3); }
  }

  lemma PreparedShape(h2: Hash2, h3: Hash3, inputs: seq<ApplicationNote>, outputs: seq<ApplicationNote>,
                      proofs: seq<MerkleProofData>)
    requires PrepareCheck(inputs, outputs, proofs).None?
    requires forall i :: 0 <= i < |inputs| ==> ProofValid(h2, h3, inputs[i], proofs[i], proofs[0].root)
    ensures Shaped(AsSignals(Prepared(h2, h3, inputs, outputs, proofs)), 4, 4, 20)
  {
    var c := Prepared(h2, h3, inputs, outputs, proofs);
    forall i | 0 <= i < 4
      ensures |c.inPathElements[i]| == |c.inPathIndices[i]| == 20
    {
      if i < |inputs| {
        assert ProofValid(h2, h3, inputs[i], proofs[i], proofs[0].root);
      }
    }
  }

  lemma PreparedInput(h2: Hash2, h3: Hash3, inputs: seq<ApplicationNote>, outputs: seq<ApplicationNote>,
                      proofs: seq<MerkleProofData>, i: nat)
    requires PrepareCheck(inputs, outputs, proofs).None? && i < 4
    requires Shaped(AsSignals(Prepared(h2, h3, inputs, outputs, proofs)), 4, 4, 20)
    requires i < |inputs| ==> ProofValid(h2, h3, inputs[i], proofs[i], proofs[0].root)
    ensures InputHolds(h2, h3, AsSignals(Prepared(h2, h3, inputs, outputs, proofs)), i) <==>
            i < |inputs| || ZeroInputHolds(h2, h3, proofs[0].root)
  {
    var c := Prepared(h2, h3, inputs, outputs, proofs);
    if i < |inputs| {
      assert c.nullifierHashes[i] == ComputeNullifier(h2, CommitmentOf(h3, inputs[i]), inputs[i].secret);
      assert c.inPathElements[i] == proofs[i].pathElements && c.inPathIndices[i] == proofs[i].pathIndices;
    } else {
      var zeros := seq(MERKLE_TREE_DEPTH, _ => 0);
      assert c.inPathElements[i] == zeros && c.inPathIndices[i] == zeros;
    }
  }

  lemma PreparedOutput(h2: Hash2, h3: Hash3, inputs: seq<ApplicationNote>, outputs: seq<ApplicationNote>,
                       proofs: seq<MerkleProofData>, i: nat)
    requires PrepareCheck(inputs, outputs, proofs).None? && i < 4
    ensures OutputHolds(h3, AsSignals(Prepared(h2, h3, inputs, outputs, proofs)), i) <==>
            i < |outputs| || ZeroOutputHolds(h3)
  {
  }

  /** Padding adds zeros, so the balance the adapter checked is the one the circuit sees. */
  lemma PreparedBalance(h2: Hash2, h3: Hash3, inputs: seq<ApplicationNote>, outputs: seq<ApplicationNote>,
                        proofs: seq<MerkleProofData>)
    requires PrepareCheck(inputs, outputs, proofs).None?
    ensures var w := AsSignals(Prepared(h2, h3, inputs, outputs, proofs));
            Sum(w.inAmount) % Q == Sum(w.outAmount) % Q
  {
    var c := Prepared(h2, h3, inputs, outputs, proofs);
    SumOfPadded(Amounts(inputs), MAX_INPUTS);
    SumOfPadded(Amounts(outputs), MAX_OUTPUTS);
    SumOfResidues(c.inAmount);
    SumOfResidues(c.outAmount);
  }

  lemma SumOfPadded(s: seq<int>, size: nat)
    ensures Sum(Pad(s, size, 0)) == Sum(s)
  {
    var n := if |s| < size then size - |s| else 0;
    SumAppend(s, seq(n, _ => 0));
    SumOfZeros(n);
  }

  lemma {:induction false} SumOfZeros(n: nat)
    ensures Sum(seq(n, _ => 0)) == 0
  {
    if n > 0 {
      assert seq(n, _ => 0)[1..] == seq(n - 1, _ => 0);
      SumOfZeros(n - 1);
    }
  }
}
