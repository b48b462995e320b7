/**
  The witness calculator's input phase: signals are assigned one call at a time
  and the circuit runs when the last one is in.
 */
module InputMachine {
  import opened Wrappers
  import opened InputTable

  /** The fixed data of a circuit. The signal-id ranges of its table lie inside the input block. */
  datatype Circuit = Circuit(table: seq<HashSignalInfo>, start: nat, inputs: nat, signals: nat) {
    ghost predicate WellFormed() {
      && table != [] && start + inputs <= signals
      && forall p :: 0 <= p < |table| ==>
           if table[p].Occupied() then start <= table[p].signalid && table[p].signalid + table[p].signalsize <= start + inputs
           else table[p].signalsize == 0
    }
  }

  // A signal's value: the residue it denotes.
  type Value = nat

  datatype State = State(flags: seq<bool>, counter: nat, values: seq<Value>, runs: nat)

  datatype SetError = NoMoreSignals | SignalNotFound | IndexTooLarge | AssignedTwice

  datatype Outcome = Next(state: State) | Failed(error: SetError)

  datatype Call = Call(h: nat, i: nat, val: Value)

  // ---- one call ----------------------------------------------------------------------------------

  function CountUnassigned(s: seq<bool>): nat {
    if s == [] then 0 else (if s[0] then 0 else 1) + CountUnassigned(s[1..])
  }

  /** The counter is the number of inputs still missing. */
  ghost predicate Consistent(c: Circuit, s: State) {
    && |s.flags| == c.inputs && |s.values| == c.signals
    && s.counter == CountUnassigned(s.flags)
  }

  /** The signal a call addresses, if the table knows it and the index is in range. */
  function Target(c: Circuit, call: Call): Option<nat>
    requires c.table != []
  {
    match Lookup(c.table, call.h)
    case None => None
    case Some(pos) => if call.i >= c.table[pos].signalsize then None else Some(c.table[pos].signalid + call.i)
  }

  /** A call addresses element i of the signal its hash finds, if there is one. */
  lemma TargetMeans(c: Circuit, call: Call, si: nat)
    requires c.table != []
    ensures Target(c, call) == Some(si) <==>
            && Lookup(c.table, call.h).Some?
            && var e := c.table[Lookup(c.table, call.h).value]; call.i < e.signalsize && si == e.signalid + call.i
  {
  }

  lemma TargetInRange(c: Circuit, call: Call)
    requires c.WellFormed() && Target(c, call).Some?
    ensures c.start <= Target(c, call).value < c.start + c.inputs
  {
    var pos := Lookup(c.table, call.h).value;
    assert c.table[pos].Occupied();
  }

  /** `setInputSignal`, the checks in the order they are made. */
  function SetInput(c: Circuit, s: State, call: Call): Outcome
    requires c.WellFormed() && Consistent(c, s)
  {
    if s.counter == 0 then Failed(NoMoreSignals)
    else
      match Lookup(c.table, call.h)
      case None => Failed(SignalNotFound)
      case Some(pos) =>
        if call.i >= c.table[pos].signalsize then Failed(IndexTooLarge)
        else
          TargetInRange(c, call);
          var si := c.table[pos].signalid + call.i;
          if s.flags[si - c.start] then Failed(AssignedTwice)
          else Next(State(s.flags[si - c.start := true], s.counter - 1, s.values[si := call.val],
                          if s.counter == 1 then s.runs + 1 else s.runs))
  }

  lemma {:induction false} CountAfterAssign(s: seq<bool>, k: nat)
    requires k < |s| && !s[k]
    ensures CountUnassigned(s) > 0
    ensures CountUnassigned(s[k := true]) == CountUnassigned(s) - 1
  {
    if k == 0 {
      assert s[0 := true][1..] == s[1..];
    } else {
      assert s[k := true][1..] == s[1..][k - 1 := true];
      CountAfterAssign(s[1..], k - 1);
    }
  }

  lemma {:induction false} NothingMissing(s: seq<bool>)
    ensures CountUnassigned(s) == 0 <==> forall k :: 0 <= k < |s| ==> s[k]
  {
    if s != [] {
      NothingMissing(s[1..]);
      assert forall k :: 0 < k < |s| ==> s[k] == s[1..][k - 1];
    }
  }

  lemma StepKeepsConsistent(c: Circuit, s: State, call: Call)
    requires c.WellFormed() && Consistent(c, s) && SetInput(c, s, call).Next?
    ensures Consistent(c, SetInput(c, s, call).state)
  {
    TargetInRange(c, call);
    CountAfterAssign(s.flags, Target(c, call).value - c.start);
  }

  // ---- the calculator --------------------------------------------------------------------------------

  class CalcWit {
    const circuit: Circuit
    const inputHashMap: array<HashSignalInfo>
    const inputSignalAssigned: array<bool>
    const signalValues: array<Value>
    var inputSignalAssignedCounter: nat
    var runs: nat // how often the circuit has been run

    ghost function View(): State
      reads this, inputSignalAssigned, signalValues
    {
      State(inputSignalAssigned[..], inputSignalAssignedCounter, signalValues[..], runs)
    }

    ghost predicate Valid()
      reads this, inputHashMap, inputSignalAssigned, signalValues
    {
      circuit.WellFormed() && inputHashMap[..] == circuit.table && Consistent(circuit, View())
    }

    constructor (c: Circuit, one: Value)
      requires c.WellFormed() && c.signals > 0
      ensures Valid() && circuit == c
      ensures fresh(inputHashMap) && fresh(inputSignalAssigned) && fresh(signalValues)
      ensures View().flags == seq(c.inputs, _ => false) && inputSignalAssignedCounter == c.inputs
      ensures runs == 0 && signalValues[0] == one
    {
      circuit := c;
      inputHashMap := new HashSignalInfo[|c.table|](i requires 0 <= i < |c.table| => c.table[i]);
      inputSignalAssigned := new bool[c.inputs](_ => false);
      signalValues := new Value[c.signals];
      inputSignalAssignedCounter := c.inputs;
      runs := 0;
      new;
      signalValues[0] := one;
      NoneAssigned(c.inputs);
      assert inputSignalAssigned[..] == seq(c.inputs, _ => false);
      assert inputHashMap[..] == c.table;
    }

    /** The circuit runs exactly when no input is missing. */
    method TryRunCircuit()
      requires Valid()
      modifies this`runs
      ensures Valid()
      ensures runs == old(runs) + if forall k :: 0 <= k < inputSignalAssigned.Length ==> inputSignalAssigned[k] then 1 else 0
    {
      NothingMissing(inputSignalAssigned[..]);
      if inputSignalAssignedCounter == 0 {
        runs := runs + 1;
      }
    }

    /** None on success; an error is the failed assertion, and leaves the state as it was. */
    method SetInputSignal(h: nat, i: nat, val: Value) returns (error: Option<SetError>)
      requires Valid()
      modifies this`inputSignalAssignedCounter, this`runs, inputSignalAssigned, signalValues
      ensures Valid()
      ensures error.None? ==> SetInput(circuit, old(View()), Call(h, i, val)) == Next(View())
      ensures error.Some? ==> SetInput(circuit, old(View()), Call(h, i, val)) == Failed(error.value) && View() == old(View())
      ensures var pos := Lookup(circuit.table, h);
              && (error == Some(NoMoreSignals) <==> old(inputSignalAssignedCounter) == 0)
              && (error == Some(SignalNotFound) <==> old(inputSignalAssignedCounter) > 0 && pos.None?)
              && (error == Some(IndexTooLarge) <==>
                    old(inputSignalAssignedCounter) > 0 && pos.Some? && i >= circuit.table[pos.value].signalsize)
              && (error == Some(AssignedTwice) ==>
                    && pos.Some? && i < circuit.table[pos.value].signalsize
                    && var si := circuit.table[pos.value].signalid + i;
                       circuit.start <= si < circuit.start + inputSignalAssigned.Length && old(inputSignalAssigned[..])[si - circuit.start])
      ensures error.None? ==>
              && Lookup(circuit.table, h).Some?
              && var e := circuit.table[Lookup(circuit.table, h).value];
                 var si := e.signalid + i;
                 && e.hash == h && i < e.signalsize && circuit.start <= si < circuit.start + inputSignalAssigned.Length
                 && si < signalValues.Length && !old(inputSignalAssigned[..])[si - circuit.start]
                 && signalValues[..] == old(signalValues[..])[si := val]
                 && inputSignalAssigned[..] == old(inputSignalAssigned[..])[si - circuit.start := true]
                 && inputSignalAssignedCounter == old(inputSignalAssignedCounter) - 1
                 && runs == old(runs) + if inputSignalAssignedCounter == 0 then 1 else 0
    {
      ghost var before := View();
      if inputSignalAssignedCounter == 0 {
        return Some(NoMoreSignals);
      }
      var found := GetInputSignalHashPosition(inputHashMap, h);
      if found.None? {
        return Some(SignalNotFound);
      }
      var pos := found.value;
      if i >= inputHashMap[pos].signalsize {
        return Some(IndexTooLarge);
      }
      TargetInRange(circuit, Call(h, i, val));
      var si := inputHashMap[pos].signalid + i;
      if inputSignalAssigned[si - circuit.start] {
        return Some(AssignedTwice);
      }
      StepKeepsConsistent(circuit, before, Call(h, i, val));
      signalValues[si] := val;
      inputSignalAssigned[si - circuit.start] := true;
      inputSignalAssignedCounter := inputSignalAssignedCounter - 1;
      assert signalValues[..] == before.values[si := val];
      assert inputSignalAssigned[..] == before.flags[si - circuit.start := true];
      NothingMissing(inputSignalAssigned[..]);
      TryRunCircuit();
      return None;
    }
  }

  lemma {:induction false} NoneAssigned(n: nat)
    ensures CountUnassigned(seq(n, _ => false)) == n
  {
    if n > 0 {
      assert seq(n, _ => false)[1..] == seq(n - 1, _ => false);
      NoneAssigned(n - 1);
    }
  }

  // ---- whole runs -------------------------------------------------------------------------------------

  ghost predicate Initial(c: Circuit, s: State) {
    s.flags == seq(c.inputs, _ => false) && s.counter == c.inputs && |s.values| == c.signals && s.runs == 0
  }

  /** The state after a sequence of calls, or the first failure. */
  ghost function RunAll(c: Circuit, s: State, calls: seq<Call>): (r: Outcome)
    requires c.WellFormed() && Consistent(c, s)
    ensures r.Next? ==> Consistent(c, r.state)
  {
    if calls == [] then Next(s)
    else
      var last := |calls| - 1;
      match RunAll(c, s, calls[..last])
      case Failed(e) => Failed(e)
      case Next(t) =>
        if SetInput(c, t, calls[last]).Next? then StepKeepsConsistent(c, t, calls[last]); SetInput(c, t, calls[last])
        else SetInput(c, t, calls[last])
  }

  /**
    In every reachable state the circuit has run exactly when no input is
    missing, and then once; a circuit without inputs is run by no call.
   */
  lemma {:induction false} RunsExactlyOnce(c: Circuit, s: State, calls: seq<Call>)
    requires c.WellFormed() && Consistent(c, s) && Initial(c, s)
    requires RunAll(c, s, calls).Next?
    ensures var t := RunAll(c, s, calls).state;
            && |calls| == c.inputs - t.counter
            && t.runs == if |calls| == c.inputs && calls != [] then 1 else 0
  {
    if calls != [] {
      RunsExactlyOnce(c, s, calls[..|calls| - 1]);
    }
  }

  ghost predicate AllResolve(c: Circuit, calls: seq<Call>)
    requires c.table != []
  {
    forall k :: 0 <= k < |calls| ==> Target(c, calls[k]).Some?
  }

  ghost predicate DistinctTargets(c: Circuit, calls: seq<Call>)
    requires c.table != []
  {
    forall j, k :: 0 <= j < k < |calls| ==> Target(c, calls[j]) != Target(c, calls[k])
  }

  ghost predicate Addressed(c: Circuit, calls: seq<Call>, p: nat)
    requires c.table != []
  {
    exists k :: 0 <= k < |calls| && Target(c, calls[k]) == Some(p)
  }

  /** The signals hold what the calls assigned, the others what they held before. */
  ghost predicate ValuesReflect(c: Circuit, s: State, calls: seq<Call>, t: State)
    requires c.WellFormed() && Consistent(c, s) && Consistent(c, t)
  {
    && (forall k :: 0 <= k < |calls| && Target(c, calls[k]).Some? ==>
          Target(c, calls[k]).value < c.signals && t.values[Target(c, calls[k]).value] == calls[k].val)
    && (forall p :: 0 <= p < c.signals && !Addressed(c, calls, p) ==> t.values[p] == s.values[p])
  }

  /** The flags are set for the addressed inputs and no others. */
  ghost predicate FlagsReflect(c: Circuit, calls: seq<Call>, t: State)
    requires c.WellFormed() && Consistent(c, t)
  {
    forall p :: 0 <= p < c.inputs ==> (t.flags[p] <==> Addressed(c, calls, p + c.start))
  }

  lemma AddressedAppend(c: Circuit, front: seq<Call>, call: Call)
    requires c.table != []
    ensures forall p: nat :: Addressed(c, front + [call], p) <==> Addressed(c, front, p) || Target(c, call) == Some(p)
  {
    var calls := front + [call];
    forall p: nat
      ensures Addressed(c, calls, p) <==> Addressed(c, front, p) || Target(c, call) == Some(p)
    {
      if Addressed(c, front, p) {
        var k :| 0 <= k < |front| && Target(c, front[k]) == Some(p);
        assert calls[k] == front[k];
      }
      if Target(c, call) == Some(p) {
        assert calls[|front|] == call;
      }
    }
  }

  /** A sequence of calls succeeds exactly when every call resolves and no signal is addressed twice. */
  lemma {:induction false} SucceedsWhenDistinct(c: Circuit, s: State, calls: seq<Call>)
    requires c.WellFormed() && Consistent(c, s) && Initial(c, s)
    ensures RunAll(c, s, calls).Next? <==> AllResolve(c, calls) && DistinctTargets(c, calls)
    ensures RunAll(c, s, calls).Next? ==>
              var t := RunAll(c, s, calls).state;
              ValuesReflect(c, s, calls, t) && FlagsReflect(c, calls, t)
  {
    if calls != [] {
      var last := |calls| - 1;
      var front := calls[..last];
      assert calls == front + [calls[last]];
      SucceedsWhenDistinct(c, s, front);
      if RunAll(c, s, front).Next? {
        LastCall(c, s, front, calls[last], RunAll(c, s, front).state);
      } else {
        assert forall k :: 0 <= k < |front| ==> front[k] == calls[k];
      }
    }
  }

  lemma LastCall(c: Circuit, s: State, front: seq<Call>, call: Call, t: State)
    requires c.WellFormed() && Consistent(c, s) && Consistent(c, t)
    requires AllResolve(c, front) && DistinctTargets(c, front)
    requires ValuesReflect(c, s, front, t) && FlagsReflect(c, front, t)
    ensures SetInput(c, t, call).Next? <==> AllResolve(c, front + [call]) && DistinctTargets(c, front + [call])
    ensures SetInput(c, t, call).Next? ==>
              var u := SetInput(c, t, call).state;
              Consistent(c, u) && ValuesReflect(c, s, front + [call], u) && FlagsReflect(c, front + [call], u)
  {
    LastSucceeds(c, front, call, t);
    if SetInput(c, t, call).Next? {
      StepKeepsConsistent(c, t, call);
      LastReflects(c, s, front, call, t);
    }
  }

  lemma LastSucceeds(c: Circuit, front: seq<Call>, call: Call, t: State)
    requires c.WellFormed() && Consistent(c, t)
    requires AllResolve(c, front) && DistinctTargets(c, front) && FlagsReflect(c, front, t)
    ensures SetInput(c, t, call).Next? <==> AllResolve(c, front + [call]) && DistinctTargets(c, front + [call])
  {
    var calls := front + [call];
    assert calls[|front|] == call && forall k :: 0 <= k < |front| ==> calls[k] == front[k];
    if Target(c, call).Some? {
      TargetInRange(c, call);
      var p := Target(c, call).value - c.start;
      assert t.flags[p] <==> Addressed(c, front, p + c.start);
      if t.flags[p] {
        var k :| 0 <= k < |front| && Target(c, front[k]) == Some(p + c.start);
        assert Target(c, calls[k]) == Target(c, calls[|front|]);
      } else {
        CountAfterAssign(t.flags, p);
        NewTarget(c, front, call);
      }
    }
  }

  lemma NewTarget(c: Circuit, front: seq<Call>, call: Call)
    requires c.table != [] && DistinctTargets(c, front)
    requires Target(c, call).Some? && !Addressed(c, front, Target(c, call).value)
    ensures DistinctTargets(c, front + [call])
  {
    var calls := front + [call];
    forall j, k | 0 <= j < k < |calls|
      ensures Target(c, calls[j]) != Target(c, calls[k])
    {
      if k == |front| {
        assert Target(c, front[j]) != Some(Target(c, call).value);
      } else {
        assert Target(c, front[j]) != Target(c, front[k]);
      }
    }
  }

  lemma LastReflects(c: Circuit, s: State, front: seq<Call>, call: Call, t: State)
    requires c.WellFormed() && Consistent(c, s) && Consistent(c, t)
    requires AllResolve(c, front) && ValuesReflect(c, s, front, t) && FlagsReflect(c, front, t)
    requires SetInput(c, t, call).Next? && Consistent(c, SetInput(c, t, call).state)
    ensures ValuesReflect(c, s, front + [call], SetInput(c, t, call).state)
    ensures FlagsReflect(c, front + [call], SetInput(c, t, call).state)
  {
    StepEffect(c, t, call);
    var u, si := SetInput(c, t, call).state, Target(c, call).value;
    assert !Addressed(c, front, si) by {
      assert !Addressed(c, front, (si - c.start) + c.start);
    }
    AddressedAppend(c, front, call);
    hide SetInput, Target, Lookup, CountUnassigned, Addressed;
    FlagsAfterStep(c, front, call, t, u);
    ValuesAfterStep(c, s, front, call, t, u);
  }

  lemma StepEffect(c: Circuit, t: State, call: Call)
    requires c.WellFormed() && Consistent(c, t) && SetInput(c, t, call).Next?
    ensures var u := SetInput(c, t, call).state;
            && Target(c, call).Some? && c.start <= Target(c, call).value < c.start + c.inputs
            && !t.flags[Target(c, call).value - c.start]
            && u.values == t.values[Target(c, call).value := call.val]
            && u.flags == t.flags[Target(c, call).value - c.start := true]
  {
    TargetInRange(c, call);
  }

  lemma FlagsAfterStep(c: Circuit, front: seq<Call>, call: Call, t: State, u: State)
    requires c.WellFormed() && Consistent(c, t) && Consistent(c, u)
    requires Target(c, call).Some? && c.start <= Target(c, call).value < c.start + c.inputs
    requires u.flags == t.flags[Target(c, call).value - c.start := true]
    requires FlagsReflect(c, front, t)
    requires forall p: nat :: Addressed(c, front + [call], p) <==> Addressed(c, front, p) || Target(c, call) == Some(p)
    ensures FlagsReflect(c, front + [call], u)
  {
    hide Target, Addressed, CountUnassigned;
  }

  lemma ValuesAfterStep(c: Circuit, s: State, front: seq<Call>, call: Call, t: State, u: State)
    requires c.WellFormed() && Consistent(c, s) && Consistent(c, t) && Consistent(c, u)
    requires Target(c, call).Some? && Target(c, call).value < c.signals
    requires u.values == t.values[Target(c, call).value := call.val]
    requires ValuesReflect(c, s, front, t) && !Addressed(c, front, Target(c, call).value)
    requires forall p: nat :: Addressed(c, front + [call], p) <==> Addressed(c, front, p) || Target(c, call) == Some(p)
    ensures ValuesReflect(c, s, front + [call], u)
  {
    hide Target, CountUnassigned;
    var calls := front + [call];
    forall k | 0 <= k < |calls| && Target(c, calls[k]).Some?
      ensures Target(c, calls[k]).value < c.signals && u.values[Target(c, calls[k]).value] == calls[k].val
    {
      if k < |front| {
        assert calls[k] == front[k];
        assert Addressed(c, front, Target(c, front[k]).value);
      }
    }
    forall p | 0 <= p < c.signals && !Addressed(c, calls, p)
      ensures u.values[p] == s.values[p]
    {
      assert !Addressed(c, front, p) && Target(c, call) != Some(p);
    }
  }

  /** Any other order of the same calls also succeeds, and leaves the same signals. */
  lemma OrderIrrelevant(c: Circuit, s: State, calls: seq<Call>, other: seq<Call>)
    requires c.WellFormed() && Consistent(c, s) && Initial(c, s)
    requires multiset(calls) == multiset(other)
    requires RunAll(c, s, calls).Next?
    ensures RunAll(c, s, other).Next?
    ensures RunAll(c, s, other).state.values == RunAll(c, s, calls).state.values
    ensures RunAll(c, s, other).state.flags == RunAll(c, s, calls).state.flags
  {
    hide Target, SetInput, CountUnassigned, AllResolve, DistinctTargets, Addressed, ValuesReflect, FlagsReflect;
    SucceedsWhenDistinct(c, s, calls);
    SucceedsWhenDistinct(c, s, other);
    PermutedResolve(c, calls, other);
    PermutedTargets(c, calls, other);
    SameAddressed(c, calls, other);
    SameSignals(c, s, calls, other, RunAll(c, s, calls).state, RunAll(c, s, other).state);
  }

  lemma PermutedResolve(c: Circuit, calls: seq<Call>, other: seq<Call>)
    requires c.table != [] && multiset(calls) == multiset(other) && AllResolve(c, calls)
    ensures AllResolve(c, other)
  {
    hide Target;
    SameElements(calls, other);
    forall k | 0 <= k < |other|
      ensures Target(c, other[k]).Some?
    {
      var j :| 0 <= j < |calls| && calls[j] == other[k];
    }
  }

  lemma SameElements<T>(s: seq<T>, t: seq<T>)
    requires multiset(s) == multiset(t)
    ensures forall k :: 0 <= k < |t| ==> exists j :: 0 <= j < |s| && s[j] == t[k]
    ensures forall k :: 0 <= k < |s| ==> exists j :: 0 <= j < |t| && t[j] == s[k]
  {
    assert forall k :: 0 <= k < |t| ==> t[k] in multiset(s);
    assert forall k :: 0 <= k < |s| ==> s[k] in multiset(t);
  }

  lemma SameAddressed(c: Circuit, calls: seq<Call>, other: seq<Call>)
    requires c.table != [] && multiset(calls) == multiset(other)
    ensures forall p: nat :: Addressed(c, calls, p) <==> Addressed(c, other, p)
  {
    hide Target;
    SameElements(calls, other);
    forall p: nat
      ensures Addressed(c, calls, p) <==> Addressed(c, other, p)
    {
      if k :| 0 <= k < |calls| && Target(c, calls[k]) == Some(p) {
        var j :| 0 <= j < |other| && other[j] == calls[k];
      }
      if k :| 0 <= k < |other| && Target(c, other[k]) == Some(p) {
        var j :| 0 <= j < |calls| && calls[j] == other[k];
      }
    }
  }

  lemma SameSignals(c: Circuit, s: State, calls: seq<Call>, other: seq<Call>, t: State, u: State)
    requires c.WellFormed() && Consistent(c, s) && Consistent(c, t) && Consistent(c, u)
    requires multiset(calls) == multiset(other)
    requires forall p: nat :: Addressed(c, calls, p) <==> Addressed(c, other, p)
    requires ValuesReflect(c, s, calls, t) && FlagsReflect(c, calls, t)
    requires ValuesReflect(c, s, other, u) && FlagsReflect(c, other, u)
    ensures t.values == u.values && t.flags == u.flags
  {
    hide Target, CountUnassigned;
    SameElements(calls, other);
    forall p | 0 <= p < c.signals
      ensures t.values[p] == u.values[p]
    {
      if k :| 0 <= k < |calls| && Target(c, calls[k]) == Some(p) {
        var j :| 0 <= j < |other| && other[j] == calls[k];
        assert u.values[p] == other[j].val;
      } else {
        assert !Addressed(c, calls, p) && !Addressed(c, other, p);
      }
    }
    forall p | 0 <= p < c.inputs
      ensures t.flags[p] == u.flags[p]
    {
      assert Addressed(c, calls, p + c.start) <==> Addressed(c, other, p + c.start);
    }
  }

  lemma PermutedTargets(c: Circuit, calls: seq<Call>, other: seq<Call>)
    requires c.table != [] && multiset(calls) == multiset(other) && DistinctTargets(c, calls)
    ensures DistinctTargets(c, other)
  {
    forall j, k | 0 <= j < k < |other|
      ensures Target(c, other[j]) != Target(c, other[k])
    {
      var x, y := other[j], other[k];
      assert x in multiset(calls) && y in multiset(calls);
      if x == y {
        TwiceStored(other, j, k);
        OnceStored(c, calls, x);
      } else {
        var a :| 0 <= a < |calls| && calls[a] == x;
        var b :| 0 <= b < |calls| && calls[b] == y;
      }
    }
  }

  lemma TwiceStored<T>(s: seq<T>, j: nat, k: nat)
    requires j < k < |s| && s[j] == s[k]
    ensures multiset(s)[s[j]] >= 2
  {
    assert s == s[..j] + [s[j]] + s[j + 1..k] + [s[k]] + s[k + 1..];
  }

  lemma {:induction false} OnceStored(c: Circuit, calls: seq<Call>, x: Call)
    requires c.table != [] && DistinctTargets(c, calls)
    ensures multiset(calls)[x] <= 1
  {
    if calls != [] {
      assert calls == [calls[0]] + calls[1..];
      OnceStored(c, calls[1..], x);
      if calls[0] == x {
        forall k | 0 <= k < |calls| - 1
          ensures calls[1..][k] != x
        {
          assert Target(c, calls[0]) != Target(c, calls[k + 1]);
        }
      }
    }
  }
}
