/** The note wallet: the stored list, its statistics, and coin selection. */
module Notes {
  import opened Sums

  // JavaScript's three cases of an optional number.
  datatype LeafIndex = Undefined | Null | At(index: int)

  datatype Note = Note(commitment: nat, amount: int, secret: int, recipient: int, leafIndex: LeafIndex, spent: bool) {
    /** Unspent and present in the tree. */
    predicate Spendable() {
      !spent && leafIndex.At?
    }
  }

  datatype SelectError = NoSpendableNotes | InsufficientBalance

  datatype Selection = Selection(selectedNotes: seq<Note>, totalAmount: int, changeAmount: int)

  datatype SelectResult = Selected(value: Selection) | Failed(error: SelectError)

  // ---- lists of notes ---------------------------------------------------------------------------

  function Filter(p: Note -> bool, s: seq<Note>): (r: seq<Note>)
    ensures forall n :: n in r <==> n in s && p(n)
  {
    if s == [] then [] else (if p(s[0]) then [s[0]] else []) + Filter(p, s[1..])
  }

  lemma {:induction false} FilterMultiset(p: Note -> bool, s: seq<Note>)
    ensures forall n :: multiset(Filter(p, s))[n] == if p(n) then multiset(s)[n] else 0
  {
    if s != [] {
      FilterMultiset(p, s[1..]);
      assert s == [s[0]] + s[1..];
    }
  }

  function AmountsOf(s: seq<Note>): (r: seq<int>)
    ensures |r| == |s| && forall i :: 0 <= i < |s| ==> r[i] == s[i].amount
  {
    seq(|s|, i requires 0 <= i < |s| => s[i].amount)
  }

  /** The total amount of a list. */
  function Total(s: seq<Note>): int {
    Sum(AmountsOf(s))
  }

  /** The total amount of the notes that satisfy a predicate. */
  function TotalWhere(p: Note -> bool, s: seq<Note>): int {
    if s == [] then 0 else (if p(s[0]) then s[0].amount else 0) + TotalWhere(p, s[1..])
  }

  lemma {:induction false} TotalOfFilter(p: Note -> bool, s: seq<Note>)
    ensures Total(Filter(p, s)) == TotalWhere(p, s)
  {
    if s != [] {
      TotalOfFilter(p, s[1..]);
      if p(s[0]) {
        assert AmountsOf(Filter(p, s)) == [s[0].amount] + AmountsOf(Filter(p, s[1..]));
      } else {
        assert Filter(p, s) == Filter(p, s[1..]);
      }
    }
  }

  lemma {:induction false} TotalWhereAppend(p: Note -> bool, s: seq<Note>, t: seq<Note>)
    ensures TotalWhere(p, s + t) == TotalWhere(p, s) + TotalWhere(p, t)
  {
    if s == [] {
      assert s + t == t;
    } else {
      assert (s + t)[1..] == s[1..] + t;
      TotalWhereAppend(p, s[1..], t);
    }
  }

  // ---- largest first -------------------------------------------------------------------------------

  ghost predicate Descending(s: seq<Note>) {
    forall i, j :: 0 <= i < j < |s| ==> s[i].amount >= s[j].amount
  }

  /** The stable sort by descending amount. */
  function SortDescending(s: seq<Note>): (r: seq<Note>)
    ensures Descending(r) && multiset(r) == multiset(s) && |r| == |s|
  {
    if s == [] then []
    else
      var rest := SortDescending(s[1..]);
      assert s == [s[0]] + s[1..];
      InsertOrdered(s[0], rest);
      InsertDescending(s[0], rest)
  }

  function InsertDescending(n: Note, s: seq<Note>): (r: seq<Note>)
    ensures multiset(r) == multiset{n} + multiset(s) && |r| == |s| + 1
  {
    if s == [] || n.amount >= s[0].amount then [n] + s
    else
      assert s == [s[0]] + s[1..];
      [s[0]] + InsertDescending(n, s[1..])
  }

  lemma {:induction false} InsertOrdered(n: Note, s: seq<Note>)
    requires Descending(s)
    ensures Descending(InsertDescending(n, s))
  {
    if s != [] && n.amount < s[0].amount {
      var rest := InsertDescending(n, s[1..]);
      InsertOrdered(n, s[1..]);
      forall m | m in rest
        ensures m.amount <= s[0].amount
      {
        assert m in multiset(rest);
        if m != n {
          assert m in s[1..];
        }
      }
    }
  }

  lemma {:induction false} FilterInserted(p: Note -> bool, x: Note, s: seq<Note>, a: int)
    requires forall n :: p(n) <==> n.amount == a
    ensures Filter(p, InsertDescending(x, s)) == (if x.amount == a then [x] else []) + Filter(p, s)
  {
    hide Filter;
    InsertCases(x, s);
    if s != [] && x.amount < s[0].amount {
      assert s == [s[0]] + s[1..];
      FilterInserted(p, x, s[1..], a);
      FilterCons(p, s[0], InsertDescending(x, s[1..]));
      FilterCons(p, s[0], s[1..]);
    } else {
      FilterCons(p, x, s);
    }
  }

  /** The sort is stable: the notes of one amount keep their order. */
  lemma {:induction false} SortStable(p: Note -> bool, s: seq<Note>, a: int)
    requires forall n :: p(n) <==> n.amount == a
    ensures Filter(p, SortDescending(s)) == Filter(p, s)
  {
    if s != [] {
      SortStable(p, s[1..], a);
      FilterInserted(p, s[0], SortDescending(s[1..]), a);
    }
  }

  /** Every stored note that is unspent and has an index, as often as it is stored, and nothing else. */
  lemma SpendableExactly(notes: seq<Note>)
    ensures forall n: Note ::
              multiset(SpendableNotes(notes))[n] == if !n.spent && n.leafIndex.At? then multiset(notes)[n] else 0
    ensures forall i, j :: 0 <= i < j < |SpendableNotes(notes)| ==>
              SpendableNotes(notes)[i].amount >= SpendableNotes(notes)[j].amount
  {
    FilterMultiset((n: Note) => n.Spendable(), notes);
  }

  /** `getSpendableNotes`. */
  function SpendableNotes(notes: seq<Note>): (r: seq<Note>)
    ensures Descending(r)
    ensures forall n :: n in r <==> n in notes && !n.spent && n.leafIndex.At?
  {
    var f := Filter((n: Note) => n.Spendable(), notes);
    var r := SortDescending(f);
    assert forall n :: n in r <==> n in multiset(r);
    assert forall n :: n in f <==> n in multiset(f);
    r
  }

  // ---- selection ---------------------------------------------------------------------------------------

  method SelectNotes(notes: seq<Note>, targetAmount: int, maxNotes: nat) returns (r: SelectResult)
    ensures r.Failed? && r.error.NoSpendableNotes? <==> SpendableNotes(notes) == []
    ensures r.Failed? && r.error.InsufficientBalance? ==>
              && NoPrefixReaches(Take(notes, maxNotes), targetAmount) && Total(Take(notes, maxNotes)) < targetAmount
              && var s := SpendableNotes(notes);
                 forall k :: (0 < k <= maxNotes && k <= |s|) || 0 == k == maxNotes ==> Sum(AmountsOf(s[..k])) < targetAmount
    ensures r.Selected? ==> SelectionHolds(notes, targetAmount, maxNotes, r.value)
    ensures r.Selected? ==>
              var s, k := SpendableNotes(notes), |r.value.selectedNotes|;
              && k <= maxNotes && k <= |s| && r.value.selectedNotes == s[..k] && (k == 0 ==> maxNotes == 0)
              && r.value.totalAmount == Sum(AmountsOf(s[..k])) >= targetAmount
              && r.value.changeAmount == r.value.totalAmount - targetAmount
              && forall j :: 0 < j < k ==> Sum(AmountsOf(s[..j])) < targetAmount
  {
    hide Total, SpendableNotes, Filter, Sum;
    var spendableNotes := SpendableNotes(notes);
    if |spendableNotes| == 0 {
      return Failed(NoSpendableNotes);
    }
    var selected: seq<Note> := [];
    var totalAmount := 0;
    TotalOfNone();
    var i := 0;
    while i < |spendableNotes|
      invariant 0 <= i <= |spendableNotes| && i <= maxNotes
      invariant selected == spendableNotes[..i] && totalAmount == Total(selected)
      invariant NoPrefixReaches(selected, targetAmount)
    {
      if |selected| >= maxNotes {
        break;
      }
      var note := spendableNotes[i];
      TotalPrefix(spendableNotes, i);
      ghost var before := selected;
      selected := selected + [note];
      totalAmount := totalAmount + note.amount;
      assert selected == spendableNotes[..i + 1];
      ExtendPrefixes(before, note, targetAmount);
      if totalAmount >= targetAmount {
        SelectionMeans(notes, targetAmount, maxNotes, Selection(selected, totalAmount, totalAmount - targetAmount));
        return Selected(Selection(selected, totalAmount, totalAmount - targetAmount));
      }
      i := i + 1;
    }
    assert selected == Take(notes, maxNotes);
    if totalAmount < targetAmount {
      FailureMeans(notes, targetAmount, maxNotes);
      return Failed(InsufficientBalance);
    }
    assert selected[..|selected|] == selected;
    SelectionMeans(notes, targetAmount, maxNotes, Selection(selected, totalAmount, totalAmount - targetAmount));
    return Selected(Selection(selected, totalAmount, totalAmount - targetAmount));
  }

  /** No non-empty prefix is worth the target. */
  ghost predicate NoPrefixReaches(s: seq<Note>, target: int) {
    forall k :: 0 < k <= |s| ==> Total(s[..k]) < target
  }

  /** What a successful selection returns: the shortest non-empty prefix of the sorted notes that reaches the target. */
  ghost predicate SelectionHolds(notes: seq<Note>, target: int, maxNotes: nat, v: Selection) {
    && v.selectedNotes <= SpendableNotes(notes)
    && |v.selectedNotes| <= maxNotes
    && (maxNotes > 0 ==> v.selectedNotes != [])
    && v.totalAmount == Total(v.selectedNotes) >= target
    && v.changeAmount == v.totalAmount - target
    && (v.selectedNotes != [] ==> NoPrefixReaches(v.selectedNotes[..|v.selectedNotes| - 1], target))
  }

  /** The description of a selection, written out. */
  lemma SelectionMeans(notes: seq<Note>, target: int, maxNotes: nat, v: Selection)
    requires SelectionHolds(notes, target, maxNotes, v)
    ensures var s, k := SpendableNotes(notes), |v.selectedNotes|;
            && k <= maxNotes && k <= |s| && v.selectedNotes == s[..k] && (k == 0 ==> maxNotes == 0)
            && v.totalAmount == Sum(AmountsOf(s[..k])) >= target
            && v.changeAmount == v.totalAmount - target
            && forall j :: 0 < j < k ==> Sum(AmountsOf(s[..j])) < target
  {
    hide SpendableNotes, Sum, AmountsOf;
    var s, front := SpendableNotes(notes), v.selectedNotes;
    forall j | 0 < j < |v.selectedNotes|
      ensures Sum(AmountsOf(s[..j])) < target
    {
      assert front[..|front| - 1][..j] == s[..j];
      assert Total(front[..|front| - 1][..j]) < target;
    }
  }

  lemma FailureMeans(notes: seq<Note>, target: int, maxNotes: nat)
    requires NoPrefixReaches(Take(notes, maxNotes), target) && Total(Take(notes, maxNotes)) < target
    ensures var s := SpendableNotes(notes);
            forall k :: (0 < k <= maxNotes && k <= |s|) || 0 == k == maxNotes ==> Sum(AmountsOf(s[..k])) < target
  {
    hide SpendableNotes, Sum;
    var s, taken := SpendableNotes(notes), Take(notes, maxNotes);
    forall k | (0 < k <= maxNotes && k <= |s|) || 0 == k == maxNotes
      ensures Sum(AmountsOf(s[..k])) < target
    {
      if k > 0 {
        assert taken[..k] == s[..k];
        assert Total(taken[..k]) < target;
      } else {
        assert taken == s[..0];
      }
    }
  }

  /** There is only one such selection. */
  lemma SelectionUnique(notes: seq<Note>, target: int, maxNotes: nat, v: Selection, w: Selection)
    requires SelectionHolds(notes, target, maxNotes, v) && SelectionHolds(notes, target, maxNotes, w)
    ensures v == w
  {
    hide SpendableNotes, Total, NoPrefixReaches;
    var s, k, m := SpendableNotes(notes), |v.selectedNotes|, |w.selectedNotes|;
    assert v.selectedNotes == s[..k] && w.selectedNotes == s[..m];
    if 0 < k < m {
      PrefixFallsShort(s, k, m, target);
    } else if 0 < m < k {
      PrefixFallsShort(s, m, k, target);
    }
  }

  lemma PrefixFallsShort(s: seq<Note>, k: nat, m: nat, target: int)
    requires 0 < k < m <= |s| && NoPrefixReaches(s[..m][..m - 1], target)
    ensures Total(s[..k]) < target
  {
    assert s[..m][..m - 1][..k] == s[..k];
  }

  lemma TotalOfNone()
    ensures Total([]) == 0
  {
  }

  lemma ExtendPrefixes(s: seq<Note>, n: Note, target: int)
    requires NoPrefixReaches(s, target)
    ensures (s + [n])[..|s|] == s
    ensures Total(s + [n]) < target ==> NoPrefixReaches(s + [n], target)
  {
    hide Total;
    var e := s + [n];
    forall k | 0 < k <= |e| && Total(e) < target
      ensures Total(e[..k]) < target
    {
      if k <= |s| {
        assert e[..k] == s[..k];
      } else {
        assert e[..k] == e;
      }
    }
  }

  /** The largest spendable notes, as many as allowed. */
  function Take(notes: seq<Note>, maxNotes: nat): seq<Note> {
    var s := SpendableNotes(notes);
    if |s| <= maxNotes then s else s[..maxNotes]
  }

  lemma TotalPrefix(s: seq<Note>, i: nat)
    requires i < |s|
    ensures Total(s[..i + 1]) == Total(s[..i]) + s[i].amount
  {
    assert AmountsOf(s[..i + 1]) == AmountsOf(s)[..i + 1] && AmountsOf(s[..i]) == AmountsOf(s)[..i];
    SumPrefix(AmountsOf(s), i);
  }

  // ---- optimality ------------------------------------------------------------------------------------------

  function RemoveAt(t: seq<Note>, j: nat): (r: seq<Note>)
    requires j < |t|
    ensures |r| == |t| - 1
  {
    t[..j] + t[j + 1..]
  }

  lemma RemovedOne(t: seq<Note>, j: nat)
    requires j < |t|
    ensures multiset(RemoveAt(t, j)) == multiset(t) - multiset{t[j]}
    ensures Total(t) == t[j].amount + Total(RemoveAt(t, j))
  {
    assert t == t[..j] + [t[j]] + t[j + 1..];
    TotalSplit(t, j);
  }

  /** No choice of k notes is worth more than the k largest. */
  lemma {:induction false} LargestPrefix(s: seq<Note>, t: seq<Note>)
    requires Descending(s) && multiset(t) <= multiset(s)
    ensures |t| <= |s| && Total(t) <= Total(s[..|t|])
    decreases |s|
  {
    hide Total, RemoveAt;
    MultisetSize(t, s);
    if t == [] {
      assert s[..0] == t;
    } else {
      var rest := s[1..];
      if s[0] in t {
        var j :| 0 <= j < |t| && t[j] == s[0];
        RemovedOne(t, j);
        WithHead(s, t, j);
        LargestPrefix(rest, RemoveAt(t, j));
        PrefixFromHead(s, |t| - 1);
      } else {
        WithoutHead(s, t);
        LargestPrefix(rest, t);
        ShiftedPrefix(s, |t|);
      }
    }
  }

  lemma PrefixFromHead(s: seq<Note>, k: nat)
    requires k < |s|
    ensures Total(s[..k + 1]) == s[0].amount + Total(s[1..][..k])
  {
    assert s[..k + 1] == [s[0]] + s[1..][..k];
    TotalCons(s[0], s[1..][..k]);
  }

  /** In a descending list the window of k notes from the second on is worth no more than the first k. */
  lemma ShiftedPrefix(s: seq<Note>, k: nat)
    requires Descending(s) && 0 < k < |s|
    ensures Total(s[1..][..k]) <= Total(s[..k])
  {
    PrefixFromHead(s, k);
    TotalPrefix(s, k);
  }

  lemma WithHead(s: seq<Note>, t: seq<Note>, j: nat)
    requires j < |t| && s != [] && multiset(t) <= multiset(s) && s[0] == t[j]
    ensures multiset(RemoveAt(t, j)) <= multiset(s[1..])
  {
    hide Total;
    RemovedOne(t, j);
    assert s == [s[0]] + s[1..];
  }

  lemma WithoutHead(s: seq<Note>, t: seq<Note>)
    requires s != [] && multiset(t) <= multiset(s) && s[0] !in t
    ensures multiset(t) <= multiset(s[1..])
  {
    assert s == [s[0]] + s[1..];
    assert multiset(s) == multiset{s[0]} + multiset(s[1..]);
    assert s[0] !in multiset(t);
  }

  lemma MultisetSize(t: seq<Note>, s: seq<Note>)
    requires multiset(t) <= multiset(s)
    ensures |t| <= |s|
  {
    var d := multiset(s) - multiset(t);
    assert multiset(s) == multiset(t) + d;
    assert |multiset(s)| == |multiset(t)| + |d|;
  }

  lemma TotalCons(x: Note, s: seq<Note>)
    ensures Total([x] + s) == x.amount + Total(s)
  {
    assert AmountsOf([x] + s) == [x.amount] + AmountsOf(s);
  }

  lemma TotalSplit(t: seq<Note>, j: nat)
    requires j < |t|
    ensures Total(t) == t[j].amount + Total(t[..j] + t[j + 1..])
  {
    var a := AmountsOf(t);
    assert AmountsOf(t[..j] + t[j + 1..]) == a[..j] + a[j + 1..];
    assert a == a[..j] + ([a[j]] + a[j + 1..]);
    SumAppend(a[..j], [a[j]] + a[j + 1..]);
    SumAppend(a[..j], a[j + 1..]);
  }

  ghost predicate NonNegative(notes: seq<Note>) {
    forall n :: n in notes ==> n.amount >= 0
  }

  /** With non-negative amounts a longer prefix is worth at least as much. */
  lemma {:induction false} PrefixMonotone(s: seq<Note>, i: nat, j: nat)
    requires NonNegative(s) && i <= j <= |s|
    ensures Total(s[..i]) <= Total(s[..j])
    decreases j - i
  {
    if i < j {
      TotalPrefix(s, j - 1);
      assert s[j - 1] in s;
      PrefixMonotone(s, i, j - 1);
    }
  }

  /** Selection fails only when no choice within the limit reaches the target. */
  lemma FailureMeansImpossible(notes: seq<Note>, target: int, maxNotes: nat, t: seq<Note>)
    requires NonNegative(notes) && target > 0
    requires Total(Take(notes, maxNotes)) < target
    requires multiset(t) <= multiset(SpendableNotes(notes)) && |t| <= maxNotes
    ensures Sum(AmountsOf(t)) < target
  {
    var s := SpendableNotes(notes);
    LargestPrefix(s, t);
    var m := if |s| <= maxNotes then |s| else maxNotes;
    PrefixMonotone(s, |t|, m);
    assert s[..m] == Take(notes, maxNotes);
  }

  /**
    A successful selection is a choice that covers the target with the fewest
    possible notes, and its change is less than the last note picked.
   */
  lemma SelectionIsOptimal(notes: seq<Note>, target: int, maxNotes: nat, v: Selection)
    requires NonNegative(notes) && target > 0
    requires SelectionHolds(notes, target, maxNotes, v)
    ensures multiset(v.selectedNotes) <= multiset(SpendableNotes(notes)) && 1 <= |v.selectedNotes| <= maxNotes
    ensures forall t: seq<Note> :: multiset(t) <= multiset(SpendableNotes(notes)) && Sum(AmountsOf(t)) >= target ==>
              |t| >= |v.selectedNotes|
    ensures v.changeAmount < v.selectedNotes[|v.selectedNotes| - 1].amount
  {
    hide SpendableNotes, Sum;
    TotalOfNone();
    var s, sel := SpendableNotes(notes), v.selectedNotes;
    assert s == sel + s[|sel|..];
    var last := |sel| - 1;
    TotalPrefix(sel, last);
    assert sel[..last + 1] == sel;
    ShorterFallsShort(sel[..last], target);
    forall t: seq<Note> | multiset(t) <= multiset(SpendableNotes(notes)) && Sum(AmountsOf(t)) >= target
      ensures |t| >= |sel|
    {
      if |t| < |sel| {
        assert s[..last] == sel[..last];
        SortedNonNegative(notes);
        PrefixMonotone(s, |t|, last);
        LargestPrefix(s, t);
      }
    }
  }

  lemma ShorterFallsShort(s: seq<Note>, target: int)
    requires NoPrefixReaches(s, target) && target > 0
    ensures Total(s) < target
  {
    if s != [] {
      assert s[..|s|] == s;
    }
  }

  lemma SortedNonNegative(notes: seq<Note>)
    requires NonNegative(notes)
    ensures NonNegative(SpendableNotes(notes)) && Descending(SpendableNotes(notes))
  {
  }

  // ---- the store -----------------------------------------------------------------------------------------------

  function Marked(notes: seq<Note>, commitments: set<nat>): (r: seq<Note>)
    ensures |r| == |notes|
    ensures forall i :: 0 <= i < |notes| ==>
              r[i] == if notes[i].commitment in commitments && !notes[i].spent then notes[i].(spent := true) else notes[i]
  {
    seq(|notes|, i requires 0 <= i < |notes| =>
      if notes[i].commitment in commitments && !notes[i].spent then notes[i].(spent := true) else notes[i])
  }

  // ---- statistics ----------------------------------------------------------------------------------------------

  predicate StatSpendable(n: Note) { !n.spent && n.leafIndex != Undefined }
  predicate StatPending(n: Note) { !n.spent && n.leafIndex == Undefined }
  predicate Unspent(n: Note) { !n.spent }
  predicate NullIndexed(n: Note) { !n.spent && n.leafIndex == Null }

  /** `getTotalBalance` sums the spendable notes. */
  lemma TotalBalance(notes: seq<Note>)
    ensures Total(SpendableNotes(notes)) == TotalWhere((n: Note) => n.Spendable(), notes)
  {
    var f := Filter((n: Note) => n.Spendable(), notes);
    TotalOfFilter((n: Note) => n.Spendable(), notes);
    SortKeepsTotal(f);
  }

  lemma SortKeepsTotal(s: seq<Note>)
    ensures Total(SortDescending(s)) == Total(s)
  {
    var r := SortDescending(s);
    PermutationTotal(s, r);
  }

  lemma {:induction false} PermutationTotal(s: seq<Note>, r: seq<Note>)
    requires multiset(s) == multiset(r)
    ensures Total(s) == Total(r)
    decreases |s|
  {
    MultisetSize(s, r);
    MultisetSize(r, s);
    if s != [] {
      assert s[0] in multiset(r);
      var j :| 0 <= j < |r| && r[j] == s[0];
      RemovedOne(r, j);
      RemovedOne(s, 0);
      PermutationTotal(RemoveAt(s, 0), RemoveAt(r, j));
    }
  }

  /** The two balances a user sees differ exactly by the unspent notes whose leaf index is null. */
  lemma {:induction false} BalancesAgree(notes: seq<Note>)
    ensures TotalWhere(StatSpendable, notes) == TotalWhere((n: Note) => n.Spendable(), notes) + TotalWhere(NullIndexed, notes)
    ensures forall n: Note ::
              && (StatSpendable(n) <==> !n.spent && n.leafIndex != Undefined) && (StatPending(n) <==> !n.spent && n.leafIndex == Undefined)
              && (n.Spendable() <==> !n.spent && n.leafIndex.At?) && (NullIndexed(n) <==> !n.spent && n.leafIndex == Null)
    ensures TotalWhere(Unspent, notes) == TotalWhere(StatSpendable, notes) + TotalWhere(StatPending, notes)
  {
    if notes != [] {
      BalancesAgree(notes[1..]);
    }
  }

  // ---- the store -----------------------------------------------------------------------------------------------

  /** The notes with a commitment get a leaf index. */
  function Indexed(notes: seq<Note>, commitment: nat, leafIndex: int): (r: seq<Note>)
    ensures |r| == |notes|
    ensures forall i :: 0 <= i < |notes| ==>
              r[i] == if notes[i].commitment == commitment then notes[i].(leafIndex := At(leafIndex)) else notes[i]
  {
    seq(|notes|, i requires 0 <= i < |notes| =>
      if notes[i].commitment == commitment then notes[i].(leafIndex := At(leafIndex)) else notes[i])
  }

  /** After marking, exactly the spendable notes with other commitments can still be selected. */
  lemma SpendableAfterMark(notes: seq<Note>, commitments: set<nat>)
    ensures forall n :: n in SpendableNotes(Marked(notes, commitments)) <==>
              n in SpendableNotes(notes) && n.commitment !in commitments
  {
    hide SpendableNotes;
    var r := Marked(notes, commitments);
    forall n
      ensures n in SpendableNotes(r) <==> n in SpendableNotes(notes) && n.commitment !in commitments
    {
      if n in notes && n.Spendable() && n.commitment !in commitments {
        var i :| 0 <= i < |notes| && notes[i] == n;
        assert r[i] == n;
      }
    }
  }

  /** After indexing, the unspent notes with the commitment can be selected too, under their new index. */
  lemma SpendableAfterIndex(notes: seq<Note>, commitment: nat, leafIndex: int)
    ensures forall n: Note :: n.commitment != commitment ==>
              (n in SpendableNotes(Indexed(notes, commitment, leafIndex)) <==> n in SpendableNotes(notes))
    ensures forall n: Note :: n in notes && n.commitment == commitment && !n.spent ==>
              n.(leafIndex := At(leafIndex)) in SpendableNotes(Indexed(notes, commitment, leafIndex))
  {
    hide SpendableNotes;
    var r := Indexed(notes, commitment, leafIndex);
    forall n | n in notes
      ensures (if n.commitment == commitment then n.(leafIndex := At(leafIndex)) else n) in r
    {
      var i :| 0 <= i < |notes| && notes[i] == n;
      assert r[i] in r;
    }
  }

  /** Indexing keeps the unspent total and moves the pending notes with the commitment to the spendable ones. */
  lemma {:induction false} IndexedTotals(notes: seq<Note>, commitment: nat, leafIndex: int)
    ensures var r := Indexed(notes, commitment, leafIndex);
            && TotalWhere(Unspent, r) == TotalWhere(Unspent, notes)
            && TotalWhere(StatSpendable, r)
               == TotalWhere(StatSpendable, notes) + TotalWhere((n: Note) => StatPending(n) && n.commitment == commitment, notes)
  {
    if notes != [] {
      assert Indexed(notes, commitment, leafIndex)[1..] == Indexed(notes[1..], commitment, leafIndex);
      IndexedTotals(notes[1..], commitment, leafIndex);
    }
  }

  /** The wallet's list under its storage key. */
  class NoteStore {
    var notes: seq<Note>

    constructor ()
      ensures notes == []
    {
      notes := [];
    }

    /** `markNotesSpent`: a named commitment can no longer be selected, and every other one as before. */
    method MarkNotesSpent(commitments: set<nat>)
      modifies this
      ensures notes == Marked(old(notes), commitments)
      ensures forall n :: n in SpendableNotes(notes) <==> n in SpendableNotes(old(notes)) && n.commitment !in commitments
    {
      SpendableAfterMark(notes, commitments);
      notes := Marked(notes, commitments);
    }

    /** `addReceivedNotes`: every balance grows by that of the new notes. */
    method AddReceivedNotes(newNotes: seq<Note>)
      modifies this
      ensures notes == old(notes) + newNotes
      ensures forall p: Note -> bool :: TotalWhere(p, notes) == TotalWhere(p, old(notes)) + TotalWhere(p, newNotes)
    {
      forall p: Note -> bool
        ensures TotalWhere(p, notes + newNotes) == TotalWhere(p, notes) + TotalWhere(p, newNotes)
      {
        TotalWhereAppend(p, notes, newNotes);
      }
      notes := notes + newNotes;
    }

    /** `updateNoteLeafIndex`: the unspent notes with the commitment can be selected, and no money moves. */
    method UpdateNoteLeafIndex(commitment: nat, leafIndex: int)
      modifies this
      ensures notes == Indexed(old(notes), commitment, leafIndex)
      ensures forall n :: n in old(notes) && n.commitment == commitment && !n.spent ==>
                n.(leafIndex := At(leafIndex)) in SpendableNotes(notes)
      ensures TotalWhere(Unspent, notes) == TotalWhere(Unspent, old(notes))
    {
      SpendableAfterIndex(notes, commitment, leafIndex);
      IndexedTotals(notes, commitment, leafIndex);
      notes := Indexed(notes, commitment, leafIndex);
    }
  }

  // ---- whole runs of the store ---------------------------------------------------------------------------------

  datatype Event = Spend(commitments: set<nat>) | Receive(notes: seq<Note>) | Index(commitment: nat, leafIndex: int)

  function Apply(notes: seq<Note>, e: Event): seq<Note> {
    match e
    case Spend(commitments) => Marked(notes, commitments)
    case Receive(newNotes) => notes + newNotes
    case Index(commitment, leafIndex) => Indexed(notes, commitment, leafIndex)
  }

  function Run(notes: seq<Note>, events: seq<Event>): seq<Note>
    decreases |events|
  {
    if events == [] then notes else Run(Apply(notes, events[0]), events[1..])
  }

  /** The list keeps its notes and their contents; a spent one stays spent. */
  ghost predicate Extends(after: seq<Note>, before: seq<Note>) {
    && |after| >= |before|
    && forall i :: 0 <= i < |before| ==>
         && after[i].commitment == before[i].commitment && after[i].amount == before[i].amount
         && after[i].secret == before[i].secret && after[i].recipient == before[i].recipient
         && (before[i].spent ==> after[i].spent)
  }

  /** Over every run of the wallet no note is lost or altered, and none is unspent again. */
  lemma {:induction false} RunKeepsHistory(notes: seq<Note>, events: seq<Event>)
    ensures Extends(Run(notes, events), notes)
    decreases |events|
  {
    if events != [] {
      RunKeepsHistory(Apply(notes, events[0]), events[1..]);
    }
  }

  /** Every stored note with the commitment is spent. */
  ghost predicate Retired(notes: seq<Note>, commitment: nat) {
    forall n :: n in notes && n.commitment == commitment ==> n.spent
  }

  /** No event brings an unspent note with the commitment. */
  ghost predicate NotReceived(events: seq<Event>, commitment: nat) {
    forall k :: 0 <= k < |events| && events[k].Receive? ==> Retired(events[k].notes, commitment)
  }

  /** A commitment once spent is never selected again, whatever else happens, unless it is received anew. */
  lemma {:induction false} NeverSelectedAgain(notes: seq<Note>, commitments: set<nat>, events: seq<Event>, commitment: nat)
    requires commitment in commitments && NotReceived(events, commitment)
    ensures forall n :: n in SpendableNotes(Run(Marked(notes, commitments), events)) ==> n.commitment != commitment
  {
    hide SpendableNotes;
    assert Retired(Marked(notes, commitments), commitment);
    RetiredStays(Marked(notes, commitments), events, commitment);
  }

  lemma {:induction false} RetiredStays(notes: seq<Note>, events: seq<Event>, commitment: nat)
    requires Retired(notes, commitment) && NotReceived(events, commitment)
    ensures Retired(Run(notes, events), commitment)
    decreases |events|
  {
    if events != [] {
      assert events[0].Receive? ==> Retired(events[0].notes, commitment);
      RetiredAfter(notes, events[0], commitment);
      assert forall k :: 0 <= k < |events| - 1 ==> events[1..][k] == events[k + 1];
      RetiredStays(Apply(notes, events[0]), events[1..], commitment);
    }
  }

  lemma RetiredAfter(notes: seq<Note>, e: Event, commitment: nat)
    requires Retired(notes, commitment) && (e.Receive? ==> Retired(e.notes, commitment))
    ensures Retired(Apply(notes, e), commitment)
  {
    var r := Apply(notes, e);
    forall n | n in r && n.commitment == commitment
      ensures n.spent
    {
      var i :| 0 <= i < |r| && r[i] == n;
      if i < |notes| {
        assert notes[i] in notes;
      }
    }
  }

  // ---- a minimum amount ----------------------------------------------------------------------------------------

  /** `getSpendableNotes` with a minimum: filtered twice, then sorted. */
  function SpendableFrom(notes: seq<Note>, minAmount: int): seq<Note> {
    SortDescending(Filter((n: Note) => n.amount >= minAmount, Filter((n: Note) => n.Spendable(), notes)))
  }

  /** The minimum cuts off the tail of the sorted list, and keeps the order of the rest. */
  lemma MinimumCutsTail(notes: seq<Note>, minAmount: int)
    ensures var s, r := SpendableNotes(notes), SpendableFrom(notes, minAmount);
            && r <= s && (forall n :: n in r ==> n.amount >= minAmount)
            && forall i :: |r| <= i < |s| ==> s[i].amount < minAmount
  {
    var p := (n: Note) => n.amount >= minAmount;
    SortFilter(p, Filter((n: Note) => n.Spendable(), notes), minAmount);
    FilterPrefix(p, SpendableNotes(notes), minAmount);
  }

  lemma FilterCons(p: Note -> bool, x: Note, s: seq<Note>)
    ensures Filter(p, [x] + s) == (if p(x) then [x] else []) + Filter(p, s)
  {
    assert ([x] + s)[1..] == s;
  }

  lemma InsertCases(x: Note, s: seq<Note>)
    ensures s == [] || x.amount >= s[0].amount ==> InsertDescending(x, s) == [x] + s
    ensures s != [] && x.amount < s[0].amount ==> InsertDescending(x, s) == [s[0]] + InsertDescending(x, s[1..])
  {
  }

  lemma SortCons(x: Note, s: seq<Note>)
    ensures SortDescending([x] + s) == InsertDescending(x, SortDescending(s))
  {
    assert ([x] + s)[1..] == s;
  }

  /** Filtering by a minimum and sorting can be exchanged. */
  lemma {:induction false} SortFilter(p: Note -> bool, s: seq<Note>, m: int)
    requires forall n: Note :: p(n) <==> n.amount >= m
    ensures SortDescending(Filter(p, s)) == Filter(p, SortDescending(s))
  {
    if s != [] {
      hide Filter, InsertDescending, SortDescending, Descending;
      var x, rest := s[0], s[1..];
      assert s == [x] + rest;
      SortFilter(p, rest, m);
      FilterCons(p, x, rest);
      SortCons(x, rest);
      InsertFilter(p, x, SortDescending(rest), m);
      if p(x) {
        SortCons(x, Filter(p, rest));
      } else {
        assert [] + Filter(p, rest) == Filter(p, rest);
      }
    }
  }

  lemma {:induction false} InsertFilter(p: Note -> bool, x: Note, s: seq<Note>, m: int)
    requires Descending(s) && forall n: Note :: p(n) <==> n.amount >= m
    ensures Filter(p, InsertDescending(x, s)) == if p(x) then InsertDescending(x, Filter(p, s)) else Filter(p, s)
  {
    hide Filter, InsertDescending;
    InsertCases(x, s);
    if s == [] || x.amount >= s[0].amount {
      FilterCons(p, x, s);
      InsertCases(x, Filter(p, s));
      if Filter(p, s) != [] {
        assert Filter(p, s)[0] in s;
      }
    } else {
      var y, rest := s[0], s[1..];
      assert s == [y] + rest;
      InsertFilter(p, x, rest, m);
      FilterCons(p, y, rest);
      FilterCons(p, y, InsertDescending(x, rest));
      InsertAfter(x, y, Filter(p, rest));
    }
  }

  lemma InsertAfter(x: Note, y: Note, s: seq<Note>)
    requires x.amount < y.amount
    ensures InsertDescending(x, [y] + s) == [y] + InsertDescending(x, s)
  {
    InsertCases(x, [y] + s);
    assert ([y] + s)[1..] == s;
  }

  lemma {:induction false} FilterPrefix(p: Note -> bool, s: seq<Note>, m: int)
    requires Descending(s) && forall n: Note :: p(n) <==> n.amount >= m
    ensures Filter(p, s) <= s
    ensures forall i :: |Filter(p, s)| <= i < |s| ==> s[i].amount < m
  {
    if s != [] {
      hide Filter;
      var x, rest := s[0], s[1..];
      assert s == [x] + rest;
      FilterPrefix(p, rest, m);
      FilterCons(p, x, rest);
      if Filter(p, rest) != [] {
        var y := Filter(p, rest)[0];
        assert y in Filter(p, rest) && y in rest;
        assert x.amount >= y.amount >= m;
      }
    }
  }
}
