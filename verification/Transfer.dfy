/**
  A private transfer: select notes, build the outputs, prepare and validate the
  circuit input, prove, submit, and on every report of inclusion update the
  store. The prover's and the chain's answers, fresh secrets and fetched proofs
  are given.
 */
module Transfer {
  import opened Products
  import opened Wrappers
  import opened Modulus
  import opened Merkle
  import opened Sums
  import opened Transaction
  import opened CircuitAdapter
  import opened Notes

  const MAX_NOTES: nat := 4

  datatype TransferResult =
    | Done(selection: Selection, outputs: seq<Note>, input: CircuitInput)
    | SelectFailed(selectError: SelectError)
    | PrepareFailed(prepareError: PrepareError)
    | InvalidInput(shapeErrors: seq<ShapeError>)
    | ProofRejected
    | DispatchFailed
    | NotIncluded

  // What the chain reports about a submitted transaction, one report per callback.
  datatype Status = DispatchError | InBlock | OtherStatus

  // ---- the pieces ------------------------------------------------------------------------------

  /** `createNote`. */
  function CreateNote(h3: Hash3, amount: int, recipient: int, secret: int): Note {
    Note(ComputeCommitment(h3, amount, secret, recipient), amount, secret, recipient, Undefined, false)
  }

  /** The payment, and the change if there is any. */
  function OutputNotes(h3: Hash3, amount: int, change: int, recipient: int, me: int, secrets: (int, int)): (r: seq<Note>)
    ensures |r| == if change > 0 then 2 else 1
    ensures r[0] == Note(h3(amount % Q, secrets.0 % Q, recipient % Q), amount, secrets.0, recipient, Undefined, false)
    ensures change > 0 ==>
              r[1] == Note(h3(change % Q, secrets.1 % Q, me % Q), change, secrets.1, me, Undefined, false)
  {
    [CreateNote(h3, amount, recipient, secrets.0)]
    + if change > 0 then [CreateNote(h3, change, me, secrets.1)] else []
  }

  /** The selected notes as circuit inputs, with their commitments. */
  function AsInputs(s: seq<Note>): (r: seq<ApplicationNote>)
    ensures |r| == |s|
    ensures forall i :: 0 <= i < |s| ==>
              r[i] == ApplicationNote(s[i].amount, s[i].secret, s[i].recipient, Wrappers.Some(s[i].commitment))
  {
    seq(|s|, i requires 0 <= i < |s| => ApplicationNote(s[i].amount, s[i].secret, s[i].recipient, Wrappers.Some(s[i].commitment)))
  }

  function AsOutputs(s: seq<Note>): (r: seq<ApplicationNote>)
    ensures |r| == |s|
    ensures forall i :: 0 <= i < |s| ==> r[i] == ApplicationNote(s[i].amount, s[i].secret, s[i].recipient, Wrappers.None)
  {
    seq(|s|, i requires 0 <= i < |s| => ApplicationNote(s[i].amount, s[i].secret, s[i].recipient, Wrappers.None))
  }

  function FetchProofs(s: seq<Note>, fetch: Note -> MerkleProofData): (r: seq<MerkleProofData>)
    ensures |r| == |s| && forall i :: 0 <= i < |s| ==> r[i] == fetch(s[i])
  {
    seq(|s|, i requires 0 <= i < |s| => fetch(s[i]))
  }

  function CommitmentsOf(s: seq<Note>): set<nat> {
    set n | n in s :: n.commitment
  }

  /** The store after one report of inclusion. */
  function AfterTransfer(notes: seq<Note>, selected: seq<Note>, outputs: seq<Note>): seq<Note> {
    Marked(notes, CommitmentsOf(selected)) + outputs
  }

  // ---- every selection passes the adapter's checks --------------------------------------------------

  lemma OutputsBalance(h3: Hash3, amount: int, change: int, recipient: int, me: int, secrets: (int, int))
    requires change >= 0
    ensures Total(OutputNotes(h3, amount, change, recipient, me, secrets)) == amount + change
  {
    var payment := CreateNote(h3, amount, recipient, secrets.0);
    var rest := if change > 0 then [CreateNote(h3, change, me, secrets.1)] else [];
    TotalOfNone();
    if change > 0 {
      TotalCons(rest[0], []);
      assert [rest[0]] + [] == rest;
    }
    TotalCons(payment, rest);
  }

  lemma SelectionPassesChecks(h3: Hash3, notes: seq<Note>, amount: int, v: Selection, recipient: int, me: int,
                              secrets: (int, int), fetch: Note -> MerkleProofData)
    requires SelectionHolds(notes, amount, MAX_NOTES, v)
    ensures PrepareCheck(AsInputs(v.selectedNotes),
                         AsOutputs(OutputNotes(h3, amount, v.changeAmount, recipient, me, secrets)),
                         FetchProofs(v.selectedNotes, fetch)).None?
  {
    hide SpendableNotes, Total;
    var outputs := OutputNotes(h3, amount, v.changeAmount, recipient, me, secrets);
    OutputsBalance(h3, amount, v.changeAmount, recipient, me, secrets);
    SameAmounts(v.selectedNotes);
    SameAmounts(outputs);
  }

  lemma SameAmounts(s: seq<Note>)
    ensures Sum(Amounts(AsInputs(s))) == Total(s) == Sum(Amounts(AsOutputs(s)))
  {
    assert Amounts(AsInputs(s)) == AmountsOf(s) == Amounts(AsOutputs(s));
  }

  /** The store after n reports of inclusion. */
  function AfterReports(notes: seq<Note>, selected: seq<Note>, outputs: seq<Note>, n: nat): seq<Note> {
    if n == 0 then notes else AfterTransfer(AfterReports(notes, selected, outputs, n - 1), selected, outputs)
  }

  lemma FirstReports(notes: seq<Note>, selected: seq<Note>, outputs: seq<Note>)
    ensures AfterReports(notes, selected, outputs, 0) == notes
    ensures AfterReports(notes, selected, outputs, 1) == Marked(notes, set n | n in selected :: n.commitment) + outputs
  {
    assert AfterReports(notes, selected, outputs, 0) == notes;
  }

  /** After n > 0 reports the stored notes with the commitment of a selected one are spent, and the others as before. */
  lemma {:induction false} StoredAfterReports(notes: seq<Note>, selected: seq<Note>, outputs: seq<Note>, n: nat, i: nat)
    requires n > 0 && i < |notes|
    ensures var s := AfterReports(notes, selected, outputs, n);
            && |s| == |notes| + n * |outputs| && i < |s|
            && s[i] == notes[i].(spent := notes[i].spent || exists m :: m in selected && m.commitment == notes[i].commitment)
  {
    OneMoreCopy(n - 1, |outputs|);
    if n > 1 {
      StoredAfterReports(notes, selected, outputs, n - 1, i);
    }
    MarkedAt(AfterReports(notes, selected, outputs, n - 1), selected, outputs, i);
  }

  /** Behind them are n copies of the outputs, all but the last marked like the stored notes. */
  lemma {:induction false} CopiesAfterReports(notes: seq<Note>, selected: seq<Note>, outputs: seq<Note>, n: nat, k: nat, j: nat)
    requires k < n && j < |outputs|
    ensures var s := AfterReports(notes, selected, outputs, n);
            && |s| == |notes| + n * |outputs| && |notes| + k * |outputs| + j < |s|
            && s[|notes| + k * |outputs| + j]
               == outputs[j].(spent := outputs[j].spent
                                       || (k < n - 1 && exists m :: m in selected && m.commitment == outputs[j].commitment))
  {
    OneMoreCopy(n - 1, |outputs|);
    CopyWithin(k, n, j, |outputs|);
    if n > 1 {
      CopiesAfterReports(notes, selected, outputs, n - 1, if k < n - 1 then k else 0, j);
    }
    if k < n - 1 {
      MarkedAt(AfterReports(notes, selected, outputs, n - 1), selected, outputs, |notes| + k * |outputs| + j);
    }
  }

  lemma MarkedAt(notes: seq<Note>, selected: seq<Note>, outputs: seq<Note>, i: nat)
    requires i < |notes|
    ensures AfterTransfer(notes, selected, outputs)[i]
            == notes[i].(spent := notes[i].spent || exists m :: m in selected && m.commitment == notes[i].commitment)
  {
    var c := CommitmentsOf(selected);
    assert notes[i].commitment in c <==> exists m :: m in selected && m.commitment == notes[i].commitment;
  }

  lemma OneMoreCopy(n: nat, size: nat)
    ensures (n + 1) * size == n * size + size
  {
  }

  lemma CopyWithin(k: nat, n: nat, j: nat, size: nat)
    requires k < n && j < size
    ensures k * size + j < n * size
    ensures k < n - 1 ==> k * size + j < (n - 1) * size
  {
    MulMonotone(size, k + 1, n);
    OneMoreCopy(k, size);
    if k < n - 1 {
      MulMonotone(size, k + 1, n - 1);
    }
  }

  /** How many reports are of inclusion. */
  function Inclusions(statuses: seq<Status>): (n: nat)
    ensures n == multiset(statuses)[InBlock]
  {
    if statuses == [] then 0
    else
      assert statuses == statuses[..|statuses| - 1] + [statuses[|statuses| - 1]];
      Inclusions(statuses[..|statuses| - 1]) + if statuses[|statuses| - 1] == InBlock then 1 else 0
  }

  /** The callback, called once per report: a dispatch error returns at once, an inclusion rewrites the store. */
  method HandleReports(store: NoteStore, selected: seq<Note>, outputs: seq<Note>, statuses: seq<Status>)
      returns (first: Option<Status>)
    modifies store
    ensures store.notes == AfterReports(old(store.notes), selected, outputs, Inclusions(statuses))
    ensures first == Settled(statuses)
    ensures multiset(statuses)[InBlock] == 0 ==> store.notes == old(store.notes)
    ensures multiset(statuses)[InBlock] == 1 ==>
              store.notes == Marked(old(store.notes), set n | n in selected :: n.commitment) + outputs
    ensures first == Wrappers.None <==> forall k :: 0 <= k < |statuses| ==> statuses[k] == OtherStatus
    ensures first == Wrappers.Some(InBlock) ==>
              exists k :: 0 <= k < |statuses| && statuses[k] == InBlock && forall j :: 0 <= j < k ==> statuses[j] == OtherStatus
    ensures first == Wrappers.Some(DispatchError) ==>
              exists k :: 0 <= k < |statuses| && statuses[k] == DispatchError && forall j :: 0 <= j < k ==> statuses[j] == OtherStatus
  {
    hide Settled, Inclusions, AfterReports, Marked, SpendableNotes, TotalWhere;
    FirstReports(old(store.notes), selected, outputs);
    first := Wrappers.None;
    assert statuses[..0] == [];
    for k := 0 to |statuses|
      invariant store.notes == AfterReports(old(store.notes), selected, outputs, Inclusions(statuses[..k]))
      invariant first == Settled(statuses[..k])
    {
      OneReport(old(store.notes), selected, outputs, statuses, k);
      if statuses[k] == DispatchError {
        if first.None? { first := Wrappers.Some(DispatchError); }
      } else if statuses[k] == InBlock {
        store.MarkNotesSpent(CommitmentsOf(selected));
        store.AddReceivedNotes(outputs);
        if first.None? { first := Wrappers.Some(InBlock); }
      }
    }
    assert statuses[..|statuses|] == statuses;
  }

  /** What the next report changes. */
  lemma OneReport(notes: seq<Note>, selected: seq<Note>, outputs: seq<Note>, statuses: seq<Status>, k: nat)
    requires k < |statuses|
    ensures var n, m := Inclusions(statuses[..k]), Inclusions(statuses[..k + 1]);
            if statuses[k] == InBlock then
              AfterReports(notes, selected, outputs, m)
              == Marked(AfterReports(notes, selected, outputs, n), CommitmentsOf(selected)) + outputs
            else m == n
    ensures Settled(statuses[..k + 1])
            == if Settled(statuses[..k]).Some? || statuses[k] == OtherStatus then Settled(statuses[..k])
               else Wrappers.Some(statuses[k])
  {
    assert statuses[..k + 1][..k] == statuses[..k];
  }

  /** The report that settles the promise: the first inclusion or dispatch error. */
  function Settled(statuses: seq<Status>): (r: Option<Status>)
    ensures r.None? <==> forall k :: 0 <= k < |statuses| ==> statuses[k] == OtherStatus
    ensures r.Some? ==> r.value == DispatchError || r.value == InBlock
    ensures r.Some? ==>
              exists k :: 0 <= k < |statuses| && statuses[k] == r.value && forall j :: 0 <= j < k ==> statuses[j] == OtherStatus
  {
    if statuses == [] then Wrappers.None
    else
      var front := statuses[..|statuses| - 1];
      var before := Settled(front);
      var last := statuses[|statuses| - 1];
      assert forall k :: 0 <= k < |front| ==> front[k] == statuses[k];
      assert last == statuses[|front|];
      if before.Some? || last == OtherStatus then before else Wrappers.Some(last)
  }

  /**
    `executePrivateTransfer`. Preparation never fails after a successful
    selection, validation fails only for a fetched path of the wrong depth, and
    past the proof the store is changed by every report of inclusion and by
    nothing else, whatever the promise was settled to.
   */
  method ExecutePrivateTransfer(store: NoteStore, h2: Hash2, h3: Hash3, amount: int, recipientPubkey: int, myPubkey: int,
                                secrets: (int, int), fetch: Note -> MerkleProofData, proofValid: bool, statuses: seq<Status>)
      returns (r: TransferResult)
    modifies store
    ensures r.SelectFailed? || r.PrepareFailed? || r.InvalidInput? || r.ProofRejected? ==> store.notes == old(store.notes)
    ensures multiset(statuses)[InBlock] == 0 ==> store.notes == old(store.notes)
    ensures r.Done? ==>
              && |r.outputs| == (if r.selection.changeAmount > 0 then 2 else 1)
              && r.outputs[0] == Note(h3(amount % Q, secrets.0 % Q, recipientPubkey % Q), amount, secrets.0,
                                      recipientPubkey, Undefined, false)
              && (r.selection.changeAmount > 0 ==>
                    r.outputs[1] == Note(h3(r.selection.changeAmount % Q, secrets.1 % Q, myPubkey % Q),
                                         r.selection.changeAmount, secrets.1, myPubkey, Undefined, false))
    ensures r.Done? ==>
              && |r.outputs| <= |r.input.outAmount| == |r.input.outSecret| == |r.input.outRecipient| == |r.input.outCommitments|
              && forall i :: 0 <= i < |r.outputs| ==>
                   && r.input.outAmount[i] == r.outputs[i].amount && r.input.outSecret[i] == r.outputs[i].secret
                   && r.input.outRecipient[i] == r.outputs[i].recipient && r.input.outCommitments[i] == r.outputs[i].commitment
    ensures r.Done? ==>
              && var s := r.selection.selectedNotes;
                 && |s| <= |r.input.inAmount| == |r.input.inSecret| == |r.input.inRecipient| == |r.input.nullifierHashes|
                 && forall i :: 0 <= i < |s| ==>
                      && r.input.inAmount[i] == s[i].amount && r.input.inSecret[i] == s[i].secret
                      && r.input.inRecipient[i] == s[i].recipient
                      && r.input.nullifierHashes[i] == h2(s[i].commitment % Q, s[i].secret % Q)
    ensures r.Done? && multiset(statuses)[InBlock] == 1 ==>
              store.notes == Marked(old(store.notes), set n | n in r.selection.selectedNotes :: n.commitment) + r.outputs
    ensures r.Done? ==>
              && proofValid && Settled(statuses) == Wrappers.Some(InBlock)
              && SelectionHolds(old(store.notes), amount, 4, r.selection)
              && r.outputs == OutputNotes(h3, amount, r.selection.changeAmount, recipientPubkey, myPubkey, secrets)
              && store.notes == AfterReports(old(store.notes), r.selection.selectedNotes, r.outputs, Inclusions(statuses))
              && r.input == Prepared(h2, h3, AsInputs(r.selection.selectedNotes), AsOutputs(r.outputs),
                                     FetchProofs(r.selection.selectedNotes, fetch))
              && ShapeChecks(r.input)
    ensures !r.PrepareFailed?
    ensures r.SelectFailed? ==> (r.selectError.NoSpendableNotes? <==> SpendableNotes(old(store.notes)) == [])
    ensures r.SelectFailed? ==>
              SpendableNotes(old(store.notes)) == [] || Total(Take(old(store.notes), 4)) < amount
    ensures r.InvalidInput? ==>
              exists v, n :: SelectionHolds(old(store.notes), amount, 4, v) && n in v.selectedNotes && |fetch(n).pathElements| != 20
    ensures r.ProofRejected? ==> !proofValid
    ensures r.Done? || r.DispatchFailed? || r.NotIncluded? ==>
              exists v :: SelectionHolds(old(store.notes), amount, 4, v)
                && store.notes == AfterReports(old(store.notes), v.selectedNotes,
                                               OutputNotes(h3, amount, v.changeAmount, recipientPubkey, myPubkey, secrets),
                                               Inclusions(statuses))
    ensures r.DispatchFailed? ==> Settled(statuses) == Wrappers.Some(DispatchError)
    ensures r.NotIncluded? ==> Settled(statuses) == Wrappers.None
  {
    hide SpendableNotes, Total, ShapeChecks, OutputNotes, Settled, Inclusions, AfterTransfer, AfterReports, Prepared;
    hide AsInputs, AsOutputs, FetchProofs, Take, Marked, SelectionHolds;
    var prepared := PrepareTransfer(store.notes, h2, h3, amount, recipientPubkey, myPubkey, secrets, fetch);
    match prepared
    case Err(failure) =>
      r := failure;
    case Ok(Ready(v, outputs, input)) =>
      if !proofValid {
        return ProofRejected;
      }
      var settled := HandleReports(store, v.selectedNotes, outputs, statuses);
      match settled
      case None => r := NotIncluded;
      case Some(status) =>
        FirstReports(old(store.notes), v.selectedNotes, outputs);
        InputWritten(h2, h3, v.selectedNotes, outputs, FetchProofs(v.selectedNotes, fetch));
        r := if status == InBlock then Done(v, outputs, input) else DispatchFailed;
  }

  /** What is ready to be proved. */
  datatype Ready = Ready(selection: Selection, outputs: seq<Note>, input: CircuitInput)

  /** The part before the proof: select, build the outputs, prepare, validate. */
  method PrepareTransfer(notes: seq<Note>, h2: Hash2, h3: Hash3, amount: int, recipientPubkey: int, myPubkey: int,
                         secrets: (int, int), fetch: Note -> MerkleProofData) returns (r: Result<Ready, TransferResult>)
    ensures r.Err? ==> r.error.SelectFailed? || r.error.InvalidInput?
    ensures r.Err? && r.error.SelectFailed? ==> (r.error.selectError.NoSpendableNotes? <==> SpendableNotes(notes) == [])
    ensures r.Err? && r.error.SelectFailed? ==> SpendableNotes(notes) == [] || Total(Take(notes, 4)) < amount
    ensures r.Err? && r.error.InvalidInput? ==>
              exists v, n :: SelectionHolds(notes, amount, 4, v) && n in v.selectedNotes && |fetch(n).pathElements| != 20
    ensures r.Ok? ==>
              var v, outputs := r.value.selection, r.value.outputs;
              && SelectionHolds(notes, amount, 4, v) && 1 <= |v.selectedNotes| <= 4
              && outputs == OutputNotes(h3, amount, v.changeAmount, recipientPubkey, myPubkey, secrets)
              && r.value.input == Prepared(h2, h3, AsInputs(v.selectedNotes), AsOutputs(outputs),
                                           FetchProofs(v.selectedNotes, fetch))
              && ShapeChecks(r.value.input)
  {
    hide SpendableNotes, Total, ShapeChecks, PrepareCheck, OutputNotes, Prepared, AsInputs, AsOutputs;
    var selection := SelectNotes(notes, amount, MAX_NOTES);
    if selection.Failed? {
      return Err(SelectFailed(selection.error));
    }
    var v := selection.value;
    var outputs := OutputNotes(h3, amount, v.changeAmount, recipientPubkey, myPubkey, secrets);
    var proofs := FetchProofs(v.selectedNotes, fetch);
    SelectionPassesChecks(h3, notes, amount, v, recipientPubkey, myPubkey, secrets, fetch);
    var prepared := PrepareCircuitInput(h2, h3, AsInputs(v.selectedNotes), AsOutputs(outputs), proofs);
    match prepared
    case Err(error) =>
      r := Err(PrepareFailed(error));
    case Ok(preparation) =>
      var input := preparation.circuitInput;
      var errors := ValidateCircuitInput(input, PREPARED_FIELDS);
      NothingLacking();
      if errors != [] {
        PreparedPassesShapeChecks(h2, h3, AsInputs(v.selectedNotes), AsOutputs(outputs), proofs);
        WrongDepth(v.selectedNotes, fetch);
        return Err(InvalidInput(errors));
      }
      r := Ok(Ready(v, outputs, input));
  }

  /** The circuit input made of the selected notes and the outputs, field by field. */
  lemma InputWritten(h2: Hash2, h3: Hash3, selected: seq<Note>, outputs: seq<Note>, proofs: seq<MerkleProofData>)
    requires 1 <= |selected| == |proofs| <= 4 && |outputs| <= 4
    ensures var c := Prepared(h2, h3, AsInputs(selected), AsOutputs(outputs), proofs);
            && |selected| <= |c.inAmount| == |c.inSecret| == |c.inRecipient| == |c.nullifierHashes|
            && |outputs| <= |c.outAmount| == |c.outSecret| == |c.outRecipient| == |c.outCommitments|
            && (forall i :: 0 <= i < |selected| ==>
                  && c.inAmount[i] == selected[i].amount && c.inSecret[i] == selected[i].secret
                  && c.inRecipient[i] == selected[i].recipient
                  && c.nullifierHashes[i] == h2(selected[i].commitment % Q, selected[i].secret % Q))
            && forall i :: 0 <= i < |outputs| ==>
                 && c.outAmount[i] == outputs[i].amount && c.outSecret[i] == outputs[i].secret
                 && c.outRecipient[i] == outputs[i].recipient
                 && c.outCommitments[i] == h3(outputs[i].amount % Q, outputs[i].secret % Q, outputs[i].recipient % Q)
  {
    hide Prepared;
    var c := Prepared(h2, h3, AsInputs(selected), AsOutputs(outputs), proofs);
    PreparedInputs(h2, h3, AsInputs(selected), AsOutputs(outputs), proofs, c);
    PreparedOutputs(h2, h3, AsInputs(selected), AsOutputs(outputs), proofs, c);
  }

  lemma NothingLacking()
    ensures forall f: FieldName :: f in PREPARED_FIELDS
  {
    forall f: FieldName
      ensures f in PREPARED_FIELDS
    {
      EveryFieldRequired(f);
    }
  }

  lemma WrongDepth(selected: seq<Note>, fetch: Note -> MerkleProofData)
    requires !forall i :: 0 <= i < |selected| ==> |FetchProofs(selected, fetch)[i].pathElements| == MERKLE_TREE_DEPTH
    ensures exists n :: n in selected && |fetch(n).pathElements| != 20
  {
    var i :| 0 <= i < |selected| && |FetchProofs(selected, fetch)[i].pathElements| != MERKLE_TREE_DEPTH;
    assert selected[i] in selected;
  }

  /**
    A transfer makes at most two outputs, so with valid proofs its circuit input
    satisfies the circuit only where the hash of three zeros is zero.
   */
  lemma TransferSatisfiesCircuit(h2: Hash2, h3: Hash3, notes: seq<Note>, amount: int, v: Selection, recipient: int,
                                 me: int, secrets: (int, int), fetch: Note -> MerkleProofData, root: int)
    requires SelectionHolds(notes, amount, MAX_NOTES, v)
    requires forall i :: 0 <= i < |v.selectedNotes| ==>
               ProofValid(h2, h3, AsInputs(v.selectedNotes)[i], fetch(v.selectedNotes[i]), root)
    ensures var input := Prepared(h2, h3, AsInputs(v.selectedNotes),
                                  AsOutputs(OutputNotes(h3, amount, v.changeAmount, recipient, me, secrets)),
                                  FetchProofs(v.selectedNotes, fetch));
            Satisfies(h2, h3, AsSignals(input), 4, 4, 20) <==>
            ZeroOutputHolds(h3) && (|v.selectedNotes| < 4 ==> ZeroInputHolds(h2, h3, root))
  {
    hide SpendableNotes, Total, ProofValid, Satisfies, ZeroInputHolds, ZeroOutputHolds;
    var outputs := OutputNotes(h3, amount, v.changeAmount, recipient, me, secrets);
    var proofs := FetchProofs(v.selectedNotes, fetch);
    SelectionPassesChecks(h3, notes, amount, v, recipient, me, secrets, fetch);
    assert ProofValid(h2, h3, AsInputs(v.selectedNotes)[0], proofs[0], root);
    RootOfProof(h2, h3, AsInputs(v.selectedNotes)[0], proofs[0], root);
    PreparedSatisfiesCircuit(h2, h3, AsInputs(v.selectedNotes), AsOutputs(outputs), proofs);
  }

  lemma RootOfProof(h2: Hash2, h3: Hash3, note: ApplicationNote, p: MerkleProofData, root: int)
    requires ProofValid(h2, h3, note, p, root)
    ensures p.root == root
  {
  }

  // ---- conservation -----------------------------------------------------------------------------------

  ghost predicate DistinctCommitments(notes: seq<Note>) {
    forall i, j :: 0 <= i < j < |notes| ==> notes[i].commitment != notes[j].commitment
  }

  /**
    Marking takes out of any class of unspent notes exactly the notes of that
    class whose commitment is named, duplicates included.
   */
  lemma {:induction false} MarkedTotal(p: Note -> bool, notes: seq<Note>, commitments: set<nat>)
    requires forall n :: p(n) ==> !n.spent
    ensures TotalWhere(p, Marked(notes, commitments))
         == TotalWhere(p, notes) - TotalWhere((n: Note) => p(n) && n.commitment in commitments, notes)
  {
    if notes != [] {
      assert Marked(notes, commitments)[1..] == Marked(notes[1..], commitments);
      MarkedTotal(p, notes[1..], commitments);
    }
  }

  lemma {:induction false} StoredOnce(notes: seq<Note>)
    requires DistinctCommitments(notes)
    ensures forall n :: multiset(notes)[n] <= 1
    ensures forall m, n :: m in notes && n in notes && m.commitment == n.commitment ==> m == n
  {
    if notes != [] {
      StoredOnce(notes[1..]);
      assert notes == [notes[0]] + notes[1..];
      assert notes[0] !in multiset(notes[1..]);
    }
  }

  /** A selection is part of the stored list: no note is taken more often than it is stored. */
  lemma SelectedAreStored(notes: seq<Note>, selected: seq<Note>)
    requires selected <= SpendableNotes(notes)
    ensures forall n :: multiset(selected)[n] <= multiset(notes)[n]
    ensures forall n :: n in selected ==> n in notes && n.Spendable()
  {
    var f := Filter((n: Note) => n.Spendable(), notes);
    FilterMultiset((n: Note) => n.Spendable(), notes);
    var s := SpendableNotes(notes);
    assert s == selected + s[|selected|..];
    assert multiset(s) == multiset(selected) + multiset(s[|selected|..]);
    assert multiset(s) == multiset(f);
    forall n | n in selected
      ensures n in notes && n.Spendable()
    {
      assert n in s;
    }
  }

  /** With distinct commitments, the notes named by a selection's commitments are the selection. */
  lemma NamedAreSelected(p: Note -> bool, notes: seq<Note>, selected: seq<Note>, commitments: set<nat>)
    requires DistinctCommitments(notes) && selected <= SpendableNotes(notes)
    requires commitments == CommitmentsOf(selected)
    requires forall n :: n in selected ==> p(n)
    ensures TotalWhere((n: Note) => p(n) && n.commitment in commitments, notes) == Total(selected)
  {
    hide SpendableNotes, Total, TotalWhere;
    var named := (n: Note) => p(n) && n.commitment in commitments;
    var f := Filter(named, notes);
    SelectedAreStored(notes, selected);
    StoredOnce(notes);
    FilterMultiset(named, notes);
    forall n: Note
      ensures multiset(f)[n] == multiset(selected)[n]
    {
      if n in selected {
        assert n.commitment in commitments && named(n);
        assert n in multiset(notes) && n in multiset(selected);
      } else {
        assert n !in multiset(selected);
        assert named(n) && n in notes ==> exists m :: m in selected && m.commitment == n.commitment;
      }
    }
    assert multiset(f) == multiset(selected);
    PermutationTotal(f, selected);
    TotalOfFilter(named, notes);
  }

  /** No note outside the spendable ones shares a commitment with a selected one. */
  lemma {:induction false} OthersUnnamed(p: Note -> bool, notes: seq<Note>, commitments: set<nat>)
    requires forall n :: n in notes && n.commitment in commitments ==> !p(n)
    ensures TotalWhere((n: Note) => p(n) && n.commitment in commitments, notes) == 0
  {
    if notes != [] {
      OthersUnnamed(p, notes[1..], commitments);
    }
  }

  /** The outputs are all pending. */
  lemma OutputsArePending(h3: Hash3, amount: int, change: int, recipient: int, me: int, secrets: (int, int))
    requires change >= 0
    ensures var o := OutputNotes(h3, amount, change, recipient, me, secrets);
            && TotalWhere(Unspent, o) == TotalWhere(StatPending, o) == amount + change
            && TotalWhere(StatSpendable, o) == 0
  {
    var payment := [CreateNote(h3, amount, recipient, secrets.0)];
    var rest := if change > 0 then [CreateNote(h3, change, me, secrets.1)] else [];
    PendingAppend(payment, rest);
    PendingOne(payment[0]);
    if change > 0 {
      PendingOne(rest[0]);
    }
  }

  lemma PendingAppend(s: seq<Note>, t: seq<Note>)
    ensures TotalWhere(Unspent, s + t) == TotalWhere(Unspent, s) + TotalWhere(Unspent, t)
    ensures TotalWhere(StatPending, s + t) == TotalWhere(StatPending, s) + TotalWhere(StatPending, t)
    ensures TotalWhere(StatSpendable, s + t) == TotalWhere(StatSpendable, s) + TotalWhere(StatSpendable, t)
  {
    TotalWhereAppend(Unspent, s, t);
    TotalWhereAppend(StatPending, s, t);
    TotalWhereAppend(StatSpendable, s, t);
  }

  lemma PendingOne(n: Note)
    requires StatPending(n)
    ensures TotalWhere(Unspent, [n]) == TotalWhere(StatPending, [n]) == n.amount
    ensures TotalWhere(StatSpendable, [n]) == 0
  {
    assert [n][1..] == [];
  }

  /**
    With distinct commitments an included transfer keeps the sum of unspent
    notes and moves exactly the selected total from spendable to pending.
   */
  lemma TransferConserves(h3: Hash3, notes: seq<Note>, amount: int, v: Selection, recipient: int, me: int, secrets: (int, int))
    requires DistinctCommitments(notes) && SelectionHolds(notes, amount, MAX_NOTES, v)
    ensures var after := AfterTransfer(notes, v.selectedNotes, OutputNotes(h3, amount, v.changeAmount, recipient, me, secrets));
            && TotalWhere(Unspent, after) == TotalWhere(Unspent, notes)
            && TotalWhere(StatSpendable, after) == TotalWhere(StatSpendable, notes) - v.totalAmount
            && TotalWhere(StatPending, after) == TotalWhere(StatPending, notes) + v.totalAmount
  {
    hide SpendableNotes, Total, TotalWhere, OutputNotes, DistinctCommitments, CommitmentsOf;
    var sel, c := v.selectedNotes, CommitmentsOf(v.selectedNotes);
    var o := OutputNotes(h3, amount, v.changeAmount, recipient, me, secrets);
    OutputsArePending(h3, amount, v.changeAmount, recipient, me, secrets);
    SelectedAreStored(notes, sel);
    MarkedTotal(Unspent, notes, c);
    MarkedTotal(StatSpendable, notes, c);
    MarkedTotal(StatPending, notes, c);
    NamedAreSelected(Unspent, notes, sel, c);
    NamedAreSelected(StatSpendable, notes, sel, c);
    PendingUnnamed(StatPending, notes, sel, c);
    PendingAppend(Marked(notes, c), o);
  }

  lemma PendingUnnamed(p: Note -> bool, notes: seq<Note>, selected: seq<Note>, commitments: set<nat>)
    requires DistinctCommitments(notes) && selected <= SpendableNotes(notes)
    requires commitments == CommitmentsOf(selected)
    requires forall n: Note :: p(n) ==> !n.Spendable()
    ensures TotalWhere((n: Note) => p(n) && n.commitment in commitments, notes) == 0
  {
    hide TotalWhere, SpendableNotes;
    SelectedAreStored(notes, selected);
    StoredOnce(notes);
    forall n | n in notes && n.commitment in commitments
      ensures !p(n)
    {
      var m :| m in selected && m.commitment == n.commitment;
      assert m in notes && m.Spendable();
    }
    OthersUnnamed(p, notes, commitments);
  }

  // ---- repeated reports -------------------------------------------------------------------------------

  ghost predicate OutputsNew(selected: seq<Note>, outputs: seq<Note>) {
    forall o :: o in outputs ==> o.commitment !in CommitmentsOf(selected)
  }

  /** Marking again finds nothing to mark. */
  lemma MarkedTwice(notes: seq<Note>, outputs: seq<Note>, commitments: set<nat>)
    requires forall o :: o in outputs ==> o.commitment !in commitments
    ensures Marked(Marked(notes, commitments), commitments) == Marked(notes, commitments)
    ensures Marked(notes + outputs, commitments) == Marked(notes, commitments) + outputs
  {
  }

  /** What every further report does: the outputs are appended once more. */
  lemma {:induction false} FurtherReports(notes: seq<Note>, selected: seq<Note>, outputs: seq<Note>, n: nat)
    requires n > 0 && OutputsNew(selected, outputs)
    ensures var s := AfterReports(notes, selected, outputs, n);
            && Marked(s, CommitmentsOf(selected)) == s
            && AfterReports(notes, selected, outputs, n + 1) == s + outputs
  {
    var c := CommitmentsOf(selected);
    if n > 1 {
      FurtherReports(notes, selected, outputs, n - 1);
      MarkedTwice(AfterReports(notes, selected, outputs, n - 1), outputs, c);
    } else {
      assert AfterReports(notes, selected, outputs, 1) == Marked(notes, c) + outputs;
      MarkedTwice(notes, outputs, c);
      MarkedTwice(Marked(notes, c), outputs, c);
    }
  }

  /**
    With distinct commitments and new outputs, every report of inclusion after
    the first adds the selected total to the unspent total again: one report
    keeps it, and more do only when the selected total is 0.
   */
  lemma {:induction false} ReportsConserve(h3: Hash3, notes: seq<Note>, amount: int, v: Selection, recipient: int, me: int,
                                           secrets: (int, int), n: nat)
    requires DistinctCommitments(notes) && SelectionHolds(notes, amount, MAX_NOTES, v) && n > 0
    requires OutputsNew(v.selectedNotes, OutputNotes(h3, amount, v.changeAmount, recipient, me, secrets))
    ensures var outputs := OutputNotes(h3, amount, v.changeAmount, recipient, me, secrets);
            var after := TotalWhere(Unspent, AfterReports(notes, v.selectedNotes, outputs, n));
            && after == TotalWhere(Unspent, notes) + (n - 1) * v.totalAmount
            && (after == TotalWhere(Unspent, notes) <==> n == 1 || v.totalAmount == 0)
  {
    hide SpendableNotes, Total, TotalWhere, OutputNotes, DistinctCommitments, CommitmentsOf, OutputsNew, AfterTransfer;
    var outputs := OutputNotes(h3, amount, v.changeAmount, recipient, me, secrets);
    TransferConserves(h3, notes, amount, v, recipient, me, secrets);
    if n == 1 {
      assert AfterReports(notes, v.selectedNotes, outputs, 0) == notes;
    } else {
      ReportsConserve(h3, notes, amount, v, recipient, me, secrets, n - 1);
      FurtherReports(notes, v.selectedNotes, outputs, n - 1);
      OutputsArePending(h3, amount, v.changeAmount, recipient, me, secrets);
      PendingAppend(AfterReports(notes, v.selectedNotes, outputs, n - 1), outputs);
      assert (n - 2) * v.totalAmount + v.totalAmount == (n - 1) * v.totalAmount;
      NoProduct(n - 1, v.totalAmount);
    }
  }

  lemma NoProduct(k: int, x: int)
    requires k > 0
    ensures k * x == 0 <==> x == 0
  {
  }
}
