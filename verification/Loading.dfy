/**
  Loading a whole input: every named value is flattened, its length is compared
  with the signal's, and its elements are assigned one by one.
 */
module Loading {
  import opened Wrappers
  import opened InputTable
  import opened InputMachine
  import opened Flatten

  /** A qualified name, by its hash, and its value. */
  datatype Item = Item(hash: nat, value: Json<Value>)

  datatype LoadError = UnknownSignal | NotEnoughValues | TooManyValues | NotSet(error: SetError)

  // ---- the calls a load makes ---------------------------------------------------------------------

  function CallsOf(item: Item): (calls: seq<Call>)
    ensures |calls| == |Leaves(item.value)|
    ensures forall i :: 0 <= i < |calls| ==> calls[i] == Call(item.hash, i, Leaves(item.value)[i])
  {
    var v := Leaves(item.value);
    seq(|v|, i requires 0 <= i < |v| => Call(item.hash, i, v[i]))
  }

  function CallsOfAll(items: seq<Item>): seq<Call> {
    if items == [] then [] else CallsOfAll(items[..|items| - 1]) + CallsOf(items[|items| - 1])
  }

  /** `getInputSignalSize`; None is the failed assertion of the lookup. */
  function SizeOf(c: Circuit, h: nat): Option<nat>
    requires c.table != []
  {
    match Lookup(c.table, h)
    case None => None
    case Some(pos) => Some(c.table[pos].signalsize)
  }

  /** The named signal exists and takes as many values as are given. */
  ghost predicate Fits(c: Circuit, item: Item)
    requires c.table != []
  {
    SizeOf(c, item.hash) == Some(|Leaves(item.value)|)
  }

  ghost predicate Loads(c: Circuit, s: State, items: seq<Item>)
    requires c.WellFormed() && Consistent(c, s)
  {
    (forall k :: 0 <= k < |items| ==> Fits(c, items[k])) && RunAll(c, s, CallsOfAll(items)).Next?
  }

  /** The state a load leaves; an empty input tries to run the circuit, any other leaves that to the last assignment. */
  ghost function Loaded(c: Circuit, s: State, items: seq<Item>): (t: State)
    requires c.WellFormed() && Consistent(c, s) && Loads(c, s, items)
    ensures |t.values| == c.signals
  {
    if items == [] then s.(runs := s.runs + if s.counter == 0 then 1 else 0)
    else RunAll(c, s, CallsOfAll(items)).state
  }

  // ---- the loader -----------------------------------------------------------------------------------

  /** The calls so far have succeeded and led to the present state. */
  ghost predicate Reached(ctx: CalcWit, before: State, calls: seq<Call>)
    reads ctx, ctx.inputHashMap, ctx.inputSignalAssigned, ctx.signalValues
  {
    ctx.Valid() && Consistent(ctx.circuit, before) && RunAll(ctx.circuit, before, calls) == Next(ctx.View())
  }

  /** The inner loop: the values of one signal. */
  method SetAll(ctx: CalcWit, item: Item, v: seq<Value>, ghost before: State, ghost done: seq<Call>) returns (error: Option<LoadError>)
    requires Reached(ctx, before, done) && v == Leaves(item.value)
    modifies ctx`inputSignalAssignedCounter, ctx`runs, ctx.inputSignalAssigned, ctx.signalValues
    ensures ctx.Valid()
    ensures error.None? ==> Reached(ctx, before, done + CallsOf(item))
    ensures error.Some? ==>
              error.value.NotSet? && RunAll(ctx.circuit, before, done + CallsOf(item)) == Outcome.Failed(error.value.error)
  {
    hide SetInput, RunAll, Leaves, CountUnassigned, Lookup;
    ghost var calls := CallsOf(item);
    assert done + calls[..0] == done;
    for i := 0 to |v|
      invariant Reached(ctx, before, done + calls[..i])
    {
      ghost var front := done + calls[..i];
      assert done + calls[..i + 1] == front + [calls[i]];
      RunStep(ctx.circuit, before, front, calls[i]);
      var failed := ctx.SetInputSignal(item.hash, i, v[i]);
      if failed.Some? {
        FailureStays(ctx.circuit, before, done + calls[..i + 1], calls[i + 1..]);
        assert done + calls[..i + 1] + calls[i + 1..] == done + calls;
        return Some(NotSet(failed.value));
      }
    }
    assert calls[..|v|] == calls;
    return None;
  }

  /** `loadJson` after qualification. It succeeds exactly when every value fits its signal and every assignment succeeds. */
  method LoadJson(ctx: CalcWit, items: seq<Item>) returns (error: Option<LoadError>)
    requires ctx.Valid()
    modifies ctx`inputSignalAssignedCounter, ctx`runs, ctx.inputSignalAssigned, ctx.signalValues
    ensures ctx.Valid()
    ensures error.None? <==> Loads(ctx.circuit, old(ctx.View()), items)
    ensures error.None? ==> ctx.View() == Loaded(ctx.circuit, old(ctx.View()), items)
    ensures items == [] ==>
              && error.None? && ctx.inputSignalAssigned[..] == old(ctx.inputSignalAssigned[..])
              && ctx.signalValues[..] == old(ctx.signalValues[..])
              && ctx.runs == old(ctx.runs) + if old(ctx.inputSignalAssignedCounter) == 0 then 1 else 0
    ensures error.Some? ==>
              exists k :: 0 <= k < |items| && (forall j :: 0 <= j < k ==> Fits(ctx.circuit, items[j]))
                && var pos, given := Lookup(ctx.circuit.table, items[k].hash), |Leaves(items[k].value)|;
                   match error.value
                   case UnknownSignal => pos.None?
                   case NotEnoughValues => pos.Some? && given < ctx.circuit.table[pos.value].signalsize
                   case TooManyValues => pos.Some? && given > ctx.circuit.table[pos.value].signalsize
                   case NotSet(e) =>
                     && pos.Some? && given == ctx.circuit.table[pos.value].signalsize
                     && RunAll(ctx.circuit, old(ctx.View()), CallsOfAll(items[..k + 1])) == Outcome.Failed(e)
  {
    hide RunAll, Leaves, CountUnassigned, SetInput, Lookup, CallsOf, CallsOfAll;
    assert CallsOfAll(items[..0]) == [] by { NoCalls(); }
    ghost var before := ctx.View();
    NothingSet(ctx.circuit, before);
    if |items| == 0 {
      NothingMissing(ctx.inputSignalAssigned[..]);
      ctx.TryRunCircuit();
      return None;
    }
    for k := 0 to |items|
      invariant Reached(ctx, before, CallsOfAll(items[..k]))
      invariant forall j :: 0 <= j < k ==> Fits(ctx.circuit, items[j])
    {
      var v := FlattenInto(items[k].value, []);
      var found := GetInputSignalHashPosition(ctx.inputHashMap, items[k].hash);
      if found.None? { return Some(UnknownSignal); }
      var signalSize := ctx.inputHashMap[found.value].signalsize;
      if |v| < signalSize { return Some(NotEnoughValues); }
      if |v| > signalSize { return Some(TooManyValues); }
      CallsStep(items, k);
      var failed := SetAll(ctx, items[k], v, before, CallsOfAll(items[..k]));
      if failed.Some? {
        LongerFails(ctx.circuit, before, items, k + 1);
        return failed;
      }
    }
    assert items[..|items|] == items;
    return None;
  }

  lemma NothingSet(c: Circuit, s: State)
    requires c.WellFormed() && Consistent(c, s)
    ensures RunAll(c, s, []) == Next(s)
  {
  }

  lemma RunStep(c: Circuit, s: State, front: seq<Call>, call: Call)
    requires c.WellFormed() && Consistent(c, s) && RunAll(c, s, front).Next?
    ensures RunAll(c, s, front + [call]) == SetInput(c, RunAll(c, s, front).state, call)
  {
    assert (front + [call])[..|front|] == front;
  }

  lemma {:induction false} FailureStays(c: Circuit, s: State, front: seq<Call>, rest: seq<Call>)
    requires c.WellFormed() && Consistent(c, s) && RunAll(c, s, front).Failed?
    ensures RunAll(c, s, front + rest) == RunAll(c, s, front)
  {
    if rest == [] {
      assert front + rest == front;
    } else {
      var last := |rest| - 1;
      FailureStays(c, s, front, rest[..last]);
      assert (front + rest)[..|front| + last] == front + rest[..last];
    }
  }

  lemma NoCalls()
    ensures CallsOfAll([]) == []
  {
  }

  lemma CallsStep(items: seq<Item>, k: nat)
    requires k < |items|
    ensures CallsOfAll(items[..k + 1]) == CallsOfAll(items[..k]) + CallsOf(items[k])
  {
    assert items[..k + 1][..k] == items[..k];
  }

  lemma {:induction false} LongerFails(c: Circuit, s: State, items: seq<Item>, k: nat)
    requires c.WellFormed() && Consistent(c, s) && k <= |items| && RunAll(c, s, CallsOfAll(items[..k])).Failed?
    ensures RunAll(c, s, CallsOfAll(items)).Failed?
    decreases |items| - k
  {
    hide RunAll, CallsOfAll, CallsOf, CountUnassigned;
    if k < |items| {
      CallsStep(items, k);
      FailureStays(c, s, CallsOfAll(items[..k]), CallsOf(items[k]));
      LongerFails(c, s, items, k + 1);
    } else {
      assert items[..k] == items;
    }
  }

  // ---- where an element's call is -------------------------------------------------------------------

  /** The number of calls before those of item k. */
  function Start(items: seq<Item>, k: nat): nat
    requires k <= |items|
  {
    |CallsOfAll(items[..k])|
  }

  lemma StartStep(items: seq<Item>, k: nat)
    requires k < |items|
    ensures Start(items, k + 1) == Start(items, k) + |Leaves(items[k].value)|
  {
    CallsStep(items, k);
  }

  lemma {:induction false} StartOrdered(items: seq<Item>, j: nat, k: nat)
    requires j <= k <= |items|
    ensures Start(items, j) <= Start(items, k)
    decreases k - j
  {
    if j < k {
      StartStep(items, k - 1);
      StartOrdered(items, j, k - 1);
    }
  }

  lemma {:induction false} CallOfElement(items: seq<Item>, k: nat, i: nat)
    requires k < |items| && i < |Leaves(items[k].value)|
    ensures Start(items, k) + i < |CallsOfAll(items)|
    ensures CallsOfAll(items)[Start(items, k) + i] == Call(items[k].hash, i, Leaves(items[k].value)[i])
  {
    var last := |items| - 1;
    if k < last {
      CallOfElement(items[..last], k, i);
      assert items[..last][..k] == items[..k];
    }
  }

  lemma {:induction false} ElementOfCall(items: seq<Item>, p: nat) returns (k: nat, i: nat)
    requires p < |CallsOfAll(items)|
    ensures k < |items| && i < |Leaves(items[k].value)| && p == Start(items, k) + i
    ensures CallsOfAll(items)[p] == Call(items[k].hash, i, Leaves(items[k].value)[i])
  {
    var last := |items| - 1;
    if p < |CallsOfAll(items[..last])| {
      k, i := ElementOfCall(items[..last], p);
      assert items[..last][..k] == items[..k];
    } else {
      k, i := last, p - |CallsOfAll(items[..last])|;
    }
  }

  // ---- circuits described by their signals ---------------------------------------------------------------

  /** The table was built from signals with distinct hashes and disjoint ranges. */
  ghost predicate Described(c: Circuit, n: nat, entries: seq<HashSignalInfo>) {
    && c.WellFormed() && n > 0 && |entries| <= n && DistinctEntries(entries) && c.table == Build(n, entries)
    && forall a, b, i: nat, j: nat :: 0 <= a < b < |entries| && i < entries[a].signalsize && j < entries[b].signalsize ==>
         SignalAt(entries[a], i) != SignalAt(entries[b], j)
  }

  function SignalAt(e: HashSignalInfo, i: nat): nat {
    e.signalid + i
  }

  /** The signal an item names, with the right number of values. */
  ghost predicate Names(item: Item, e: HashSignalInfo) {
    e.hash == item.hash && e.signalsize == |Leaves(item.value)|
  }

  ghost predicate Known(entries: seq<HashSignalInfo>, item: Item) {
    exists e :: e in entries && Names(item, e)
  }

  /**
    An item that names no signal and is accepted nevertheless: an empty value
    whose name hashes to 0, which the lookup takes for an empty slot.
   */
  ghost predicate Void(n: nat, entries: seq<HashSignalInfo>, item: Item) {
    item.hash == 0 && Leaves(item.value) == [] && |entries| < n && forall e :: e in entries ==> e.hash != 0
  }

  /** An item fits exactly if it names one of the signals or is void. */
  lemma FitsExactly(c: Circuit, n: nat, entries: seq<HashSignalInfo>, item: Item)
    requires Described(c, n, entries)
    ensures Fits(c, item) <==> Known(entries, item) || Void(n, entries, item)
  {
    hide Leaves;
    BuiltTableLookup(n, entries, item.hash);
    if e :| e in entries && e.hash == item.hash {
      assert c.table[Lookup(c.table, item.hash).value] == e;
    } else if item.hash == 0 {
      ZeroLookup(n, entries);
    }
  }

  /** Without a signal of hash 0, looking up 0 fails in a full table and finds an empty slot in any other. */
  lemma ZeroLookup(n: nat, entries: seq<HashSignalInfo>)
    requires n > 0 && |entries| <= n && DistinctEntries(entries) && forall e :: e in entries ==> e.hash != 0
    ensures var t := Build(n, entries);
            if |entries| < n then Lookup(t, 0).Some? && t[Lookup(t, 0).value] == EMPTY_SLOT else Lookup(t, 0) == None
  {
    BuildIsProbed(n, entries);
    var t := Build(n, entries);
    CountBelowSize(t);
    assert forall i :: 0 <= i < |entries| ==> entries[i] in entries;
    LookupMisses(t, 0);
  }

  lemma TargetOfElement(c: Circuit, n: nat, entries: seq<HashSignalInfo>, item: Item, e: HashSignalInfo, i: nat)
    requires Described(c, n, entries) && e in entries && Names(item, e) && i < |Leaves(item.value)|
    ensures Target(c, CallsOf(item)[i]) == Some(SignalAt(e, i))
  {
    BuiltTableLookup(n, entries, item.hash);
  }

  lemma SeparateSignals(c: Circuit, n: nat, entries: seq<HashSignalInfo>, d: HashSignalInfo, e: HashSignalInfo, i: nat, j: nat)
    requires Described(c, n, entries) && d in entries && e in entries
    requires i < d.signalsize && j < e.signalsize && SignalAt(d, i) == SignalAt(e, j)
    ensures d == e && i == j
  {
    var a :| 0 <= a < |entries| && entries[a] == d;
    var b :| 0 <= b < |entries| && entries[b] == e;
    assert !(a < b) && !(b < a);
  }

  /** No signal is given twice; names of empty signals may be repeated. */
  ghost predicate GivenOnce(items: seq<Item>) {
    forall j, k :: 0 <= j < k < |items| && items[j].hash == items[k].hash ==> Leaves(items[j].value) == []
  }

  ghost predicate AllFit(n: nat, entries: seq<HashSignalInfo>, items: seq<Item>) {
    forall k :: 0 <= k < |items| ==> Known(entries, items[k]) || Void(n, entries, items[k])
  }

  /**
    A fresh calculator loads an input exactly if every item names a signal with
    its number of values, or is void, and no value is given twice.
   */
  lemma LoadsExactly(c: Circuit, n: nat, entries: seq<HashSignalInfo>, s: State, items: seq<Item>)
    requires Described(c, n, entries) && Consistent(c, s) && Initial(c, s)
    ensures Loads(c, s, items) <==> AllFit(n, entries, items) && GivenOnce(items)
  {
    hide Described, Fits, Known, Void, Target, AllResolve, DistinctTargets, Leaves;
    WellDescribed(c, n, entries);
    forall k | 0 <= k < |items|
      ensures Fits(c, items[k]) <==> Known(entries, items[k]) || Void(n, entries, items[k])
    {
      FitsExactly(c, n, entries, items[k]);
    }
    SucceedsWhenDistinct(c, s, CallsOfAll(items));
    if AllFit(n, entries, items) {
      CallsResolve(c, n, entries, items);
      if GivenOnce(items) {
        CallsDistinct(c, n, entries, items);
      } else {
        CallsRepeat(c, n, entries, items);
      }
    }
  }

  lemma WellDescribed(c: Circuit, n: nat, entries: seq<HashSignalInfo>)
    requires Described(c, n, entries)
    ensures c.WellFormed()
  {
  }

  /** The call made for an element and the signal it addresses. */
  lemma Element(c: Circuit, n: nat, entries: seq<HashSignalInfo>, items: seq<Item>, p: nat)
      returns (k: nat, i: nat, e: HashSignalInfo)
    requires Described(c, n, entries) && AllFit(n, entries, items) && p < |CallsOfAll(items)|
    ensures k < |items| && p == Start(items, k) + i && e in entries && Names(items[k], e) && i < e.signalsize
    ensures c.table != [] && Target(c, CallsOfAll(items)[p]) == Some(SignalAt(e, i))
  {
    hide Leaves, Target;
    k, i := ElementOfCall(items, p);
    assert Known(entries, items[k]);
    e :| e in entries && Names(items[k], e);
    TargetOfElement(c, n, entries, items[k], e, i);
  }

  lemma CallsResolve(c: Circuit, n: nat, entries: seq<HashSignalInfo>, items: seq<Item>)
    requires Described(c, n, entries) && AllFit(n, entries, items)
    ensures AllResolve(c, CallsOfAll(items))
  {
    hide Target;
    forall p | 0 <= p < |CallsOfAll(items)|
      ensures Target(c, CallsOfAll(items)[p]).Some?
    {
      var k, i, e := Element(c, n, entries, items, p);
    }
  }

  lemma CallsDistinct(c: Circuit, n: nat, entries: seq<HashSignalInfo>, items: seq<Item>)
    requires Described(c, n, entries) && AllFit(n, entries, items) && GivenOnce(items)
    ensures DistinctTargets(c, CallsOfAll(items))
  {
    hide Target, Leaves, Described, Start, SignalAt;
    WellDescribed(c, n, entries);
    forall p, q | 0 <= p < q < |CallsOfAll(items)|
      ensures Target(c, CallsOfAll(items)[p]) != Target(c, CallsOfAll(items)[q])
    {
      var k, i, d := Element(c, n, entries, items, p);
      var l, j, e := Element(c, n, entries, items, q);
      if SignalAt(d, i) == SignalAt(e, j) {
        SeparateSignals(c, n, entries, d, e, i, j);
      }
    }
  }

  lemma CallsRepeat(c: Circuit, n: nat, entries: seq<HashSignalInfo>, items: seq<Item>)
    requires Described(c, n, entries) && AllFit(n, entries, items) && !GivenOnce(items)
    ensures !DistinctTargets(c, CallsOfAll(items))
  {
    hide Target, Leaves, Described, Names, CallsOfAll;
    WellDescribed(c, n, entries);
    var j, k :| 0 <= j < k < |items| && items[j].hash == items[k].hash && Leaves(items[j].value) != [];
    var d := SameSignal(c, n, entries, items[j], items[k]);
    FirstCall(c, n, entries, items, j, d);
    FirstCall(c, n, entries, items, k, d);
    StartStep(items, j);
    StartOrdered(items, j + 1, k);
  }

  /** An item with elements is not void, and another of the same hash names the same signal. */
  lemma SameSignal(c: Circuit, n: nat, entries: seq<HashSignalInfo>, x: Item, y: Item) returns (d: HashSignalInfo)
    requires Described(c, n, entries) && x.hash == y.hash && Leaves(x.value) != []
    requires Known(entries, x) || Void(n, entries, x)
    requires Known(entries, y) || Void(n, entries, y)
    ensures d in entries && Names(x, d) && Names(y, d) && d.signalsize > 0
  {
    hide Described, Leaves;
    d :| d in entries && Names(x, d);
    var e :| e in entries && Names(y, e);
    SameHash(c, n, entries, d, e);
  }

  lemma FirstCall(c: Circuit, n: nat, entries: seq<HashSignalInfo>, items: seq<Item>, k: nat, e: HashSignalInfo)
    requires Described(c, n, entries) && k < |items| && e in entries && Names(items[k], e) && e.signalsize > 0
    ensures Start(items, k) < |CallsOfAll(items)|
    ensures c.table != [] && Target(c, CallsOfAll(items)[Start(items, k)]) == Some(SignalAt(e, 0))
  {
    hide Target, Leaves;
    CallOfElement(items, k, 0);
    TargetOfElement(c, n, entries, items[k], e, 0);
  }

  lemma SameHash(c: Circuit, n: nat, entries: seq<HashSignalInfo>, d: HashSignalInfo, e: HashSignalInfo)
    requires Described(c, n, entries) && d in entries && e in entries && d.hash == e.hash
    ensures d == e
  {
    var a :| 0 <= a < |entries| && entries[a] == d;
    var b :| 0 <= b < |entries| && entries[b] == e;
    assert !(a < b) && !(b < a);
  }

  // ---- what a load leaves --------------------------------------------------------------------------------

  /** Every element of a loaded value is in its signal. */
  lemma LoadedValues(c: Circuit, n: nat, entries: seq<HashSignalInfo>, s: State, items: seq<Item>, k: nat, e: HashSignalInfo, i: nat)
    requires Described(c, n, entries) && Consistent(c, s) && Initial(c, s) && Loads(c, s, items)
    requires k < |items| && e in entries && Names(items[k], e) && i < e.signalsize
    ensures SignalAt(e, i) < c.signals
    ensures Loaded(c, s, items).values[SignalAt(e, i)] == Leaves(items[k].value)[i]
  {
    hide Described, Leaves, Target, Fits, RunAll;
    WellDescribed(c, n, entries);
    SucceedsWhenDistinct(c, s, CallsOfAll(items));
    CallOfElement(items, k, i);
    TargetOfElement(c, n, entries, items[k], e, i);
  }

  /**
    The circuit runs once when as many values are given as it has inputs, and not
    at all otherwise; without inputs it runs for the empty input only.
   */
  lemma LoadRuns(c: Circuit, s: State, items: seq<Item>)
    requires c.WellFormed() && Consistent(c, s) && Initial(c, s) && Loads(c, s, items)
    ensures Loaded(c, s, items).runs
            == if |CallsOfAll(items)| == c.inputs && (c.inputs > 0 || items == []) then 1 else 0
  {
    RunsExactlyOnce(c, s, CallsOfAll(items));
  }

  // ---- complete inputs -------------------------------------------------------------------------------------

  function SumOver(f: nat -> nat, s: seq<nat>): nat {
    if s == [] then 0 else f(s[0]) + SumOver(f, s[1..])
  }

  lemma {:induction false} SumOverAppend(f: nat -> nat, s: seq<nat>, t: seq<nat>)
    ensures SumOver(f, s + t) == SumOver(f, s) + SumOver(f, t)
  {
    if s == [] {
      assert s + t == t;
    } else {
      assert (s + t)[1..] == s[1..] + t;
      SumOverAppend(f, s[1..], t);
    }
  }

  lemma {:induction false} SumOverPermuted(f: nat -> nat, s: seq<nat>, t: seq<nat>)
    requires multiset(s) == multiset(t)
    ensures SumOver(f, s) == SumOver(f, t)
    decreases |s|
  {
    if s == [] {
      assert |multiset(t)| == 0;
    } else {
      assert s[0] in multiset(t);
      var i :| 0 <= i < |t| && t[i] == s[0];
      RemoveAt(s, 0);
      RemoveAt(t, i);
      SumOverPermuted(f, s[1..], t[..i] + t[i + 1..]);
      SumWithout(f, t, i);
    }
  }

  lemma RemoveAt(s: seq<nat>, i: nat)
    requires i < |s|
    ensures multiset(s[..i] + s[i + 1..]) == multiset(s) - multiset{s[i]}
    ensures s[..0] + s[0 + 1..] == s[1..]
  {
    assert s == s[..i] + [s[i]] + s[i + 1..];
  }

  lemma SumWithout(f: nat -> nat, s: seq<nat>, i: nat)
    requires i < |s|
    ensures SumOver(f, s) == f(s[i]) + SumOver(f, s[..i] + s[i + 1..])
  {
    assert s == s[..i] + s[i..];
    SumOverAppend(f, s[..i], s[i..]);
    SumOverAppend(f, s[..i], s[i + 1..]);
  }

  function Hashes(items: seq<Item>): (s: seq<nat>)
    ensures |s| == |items|
  {
    seq(|items|, k requires 0 <= k < |items| => items[k].hash)
  }

  function EntryHashes(entries: seq<HashSignalInfo>): (s: seq<nat>)
    ensures |s| == |entries|
  {
    seq(|entries|, k requires 0 <= k < |entries| => entries[k].hash)
  }

  function Sizes(entries: seq<HashSignalInfo>): nat {
    if entries == [] then 0 else entries[0].signalsize + Sizes(entries[1..])
  }

  function SizeFor(c: Circuit): nat -> nat
    requires c.table != []
  {
    h => match SizeOf(c, h) case None => 0 case Some(n) => n
  }

  lemma {:induction false} CallsCounted(c: Circuit, items: seq<Item>)
    requires c.table != [] && forall k :: 0 <= k < |items| ==> Fits(c, items[k])
    ensures |CallsOfAll(items)| == SumOver(SizeFor(c), Hashes(items))
  {
    hide Leaves, SizeOf;
    if items != [] {
      var last := |items| - 1;
      CallsCounted(c, items[..last]);
      assert Hashes(items) == Hashes(items[..last]) + [items[last].hash];
      SumOverAppend(SizeFor(c), Hashes(items[..last]), [items[last].hash]);
      assert [items[last].hash][1..] == [];
      assert Fits(c, items[last]);
    }
  }

  lemma {:induction false} SizesCounted(c: Circuit, n: nat, entries: seq<HashSignalInfo>, some: seq<HashSignalInfo>)
    requires Described(c, n, entries) && forall e :: e in some ==> e in entries
    ensures Sizes(some) == SumOver(SizeFor(c), EntryHashes(some))
  {
    if some != [] {
      assert EntryHashes(some)[1..] == EntryHashes(some[1..]);
      SizesCounted(c, n, entries, some[1..]);
      assert some[0] in entries;
      BuiltTableLookup(n, entries, some[0].hash);
    }
  }

  /** Every signal is given exactly once, and every value has the size of its signal. */
  ghost predicate Complete(entries: seq<HashSignalInfo>, items: seq<Item>) {
    && multiset(Hashes(items)) == multiset(EntryHashes(entries))
    && forall k, e :: 0 <= k < |items| && e in entries && e.hash == items[k].hash ==> Names(items[k], e)
  }

  /**
    A complete input, in whatever order its names come, loads into a fresh
    calculator and runs the circuit once; only a circuit all of whose signals are
    empty arrays is not run.
   */
  lemma CompleteInputRunsOnce(c: Circuit, n: nat, entries: seq<HashSignalInfo>, s: State, items: seq<Item>)
    requires Described(c, n, entries) && Sizes(entries) == c.inputs
    requires Consistent(c, s) && Initial(c, s) && Complete(entries, items)
    ensures Loads(c, s, items)
    ensures Loaded(c, s, items).runs == if c.inputs > 0 || entries == [] then 1 else 0
  {
    hide Described, Loads, Loaded;
    WellDescribed(c, n, entries);
    CompleteLoads(c, n, entries, s, items);
    CompleteRuns(c, n, entries, s, items);
  }

  /** After any load, signal i of a range holds the element of its array at the position of i, whatever the rank. */
  lemma LoadedAtPosition(c: Circuit, n: nat, entries: seq<HashSignalInfo>, s: State, items: seq<Item>,
                         k: nat, e: HashSignalInfo, dims: seq<nat>, i: nat)
    requires Described(c, n, entries) && Consistent(c, s) && Initial(c, s) && Loads(c, s, items)
    requires k < |items| && e in entries && e.hash == items[k].hash
    requires Rectangular(items[k].value, dims) && Positive(dims) && i < Product(dims)
    ensures InRange(dims, Digits(dims, i)) && SignalAt(e, i) < c.signals
    ensures Loaded(c, s, items).values[SignalAt(e, i)] == At(items[k].value, dims, Digits(dims, i))
  {
    hide Described, Leaves, Digits, Product, Rectangular, Positive, InRange, At, SignalAt, Loaded;
    WellDescribed(c, n, entries);
    FlattenedAtPosition(items[k].value, dims, i);
    FoundSize(c, n, entries, items[k], e);
    LoadedValues(c, n, entries, s, items, k, e, i);
  }

  lemma FoundSize(c: Circuit, n: nat, entries: seq<HashSignalInfo>, item: Item, e: HashSignalInfo)
    requires Described(c, n, entries) && e in entries && e.hash == item.hash
    ensures Fits(c, item) <==> Names(item, e)
  {
    BuiltTableLookup(n, entries, item.hash);
  }

  lemma CompleteLoads(c: Circuit, n: nat, entries: seq<HashSignalInfo>, s: State, items: seq<Item>)
    requires Described(c, n, entries) && Consistent(c, s) && Initial(c, s) && Complete(entries, items)
    ensures Loads(c, s, items)
  {
    hide Loads, Described, GivenOnce, Complete;
    CompleteKnown(entries, items);
    CompleteOnce(c, n, entries, items);
    LoadsExactly(c, n, entries, s, items);
  }

  lemma CompleteKnown(entries: seq<HashSignalInfo>, items: seq<Item>)
    requires Complete(entries, items)
    ensures forall k :: 0 <= k < |items| ==> Known(entries, items[k])
  {
    hide Names;
    SameElements(EntryHashes(entries), Hashes(items));
    forall k | 0 <= k < |items|
      ensures Known(entries, items[k])
    {
      var a :| 0 <= a < |entries| && EntryHashes(entries)[a] == Hashes(items)[k];
      assert entries[a] in entries && Names(items[k], entries[a]);
    }
  }

  lemma CompleteOnce(c: Circuit, n: nat, entries: seq<HashSignalInfo>, items: seq<Item>)
    requires Described(c, n, entries) && Complete(entries, items)
    ensures GivenOnce(items)
  {
    hide Described, Leaves, Names;
    HashesDistinct(c, n, entries);
    var s, t := Hashes(items), EntryHashes(entries);
    forall j, k | 0 <= j < k < |items|
      ensures items[j].hash != items[k].hash
    {
      assert s[j] == items[j].hash && s[k] == items[k].hash;
      StoredAtMostOnce(t, s[j]);
      if s[j] == s[k] {
        TwiceStored(s, j, k);
      }
    }
  }

  lemma HashesDistinct(c: Circuit, n: nat, entries: seq<HashSignalInfo>)
    requires Described(c, n, entries)
    ensures forall a, b :: 0 <= a < b < |entries| ==> EntryHashes(entries)[a] != EntryHashes(entries)[b]
  {
  }

  lemma {:induction false} StoredAtMostOnce(s: seq<nat>, x: nat)
    requires forall a, b :: 0 <= a < b < |s| ==> s[a] != s[b]
    ensures multiset(s)[x] <= 1
  {
    if s != [] {
      assert s == [s[0]] + s[1..];
      StoredAtMostOnce(s[1..], x);
      if s[0] == x {
        assert forall k :: 0 <= k < |s| - 1 ==> s[1..][k] == s[k + 1] != x;
        assert x !in multiset(s[1..]);
      }
    }
  }

  lemma CompleteRuns(c: Circuit, n: nat, entries: seq<HashSignalInfo>, s: State, items: seq<Item>)
    requires Described(c, n, entries) && Sizes(entries) == c.inputs
    requires Consistent(c, s) && Initial(c, s) && Loads(c, s, items) && Complete(entries, items)
    ensures Loaded(c, s, items).runs == if c.inputs > 0 || entries == [] then 1 else 0
  {
    hide Leaves, Fits, Loaded;
    CallsCounted(c, items);
    SizesCounted(c, n, entries, entries);
    SumOverPermuted(SizeFor(c), Hashes(items), EntryHashes(entries));
    LoadRuns(c, s, items);
    assert |multiset(Hashes(items))| == |items| && |multiset(EntryHashes(entries))| == |entries|;
  }
}
