/**
  The open-addressed table of input signals, its lookup, and the assumption it
  rests on: every entry sits where probing insertion put it.
 */
module InputTable {
  import opened Wrappers

  datatype HashSignalInfo = HashSignalInfo(hash: nat, signalid: nat, signalsize: nat) {
    predicate Occupied() { signalid != 0 }
  }

  const EMPTY_SLOT := HashSignalInfo(0, 0, 0)

  /** The slot k steps round the ring of n slots from s. */
  function Ring(n: nat, s: nat, k: nat): (p: nat)
    requires s < n && k <= n
    ensures p < n
  {
    if s + k < n then s + k else s + k - n
  }

  /** The home slot of a hash. */
  function Home(n: nat, h: nat): (s: nat)
    requires n > 0
    ensures s < n
  {
    h % n
  }

  // ---- tables built by probing insertion -----------------------------------------------------

  /** The first empty slot k or more steps from home. */
  function FirstEmpty(t: seq<HashSignalInfo>, s: nat, k: nat): (r: Option<nat>)
    requires s < |t| && k <= |t|
    ensures r.Some? ==> k <= r.value < |t| && !t[Ring(|t|, s, r.value)].Occupied()
    ensures r.Some? ==> forall j :: k <= j < r.value ==> t[Ring(|t|, s, j)].Occupied()
    ensures r.None? ==> forall j :: k <= j < |t| ==> t[Ring(|t|, s, j)].Occupied()
    decreases |t| - k
  {
    if k == |t| then None
    else if !t[Ring(|t|, s, k)].Occupied() then Some(k)
    else FirstEmpty(t, s, k + 1)
  }

  /** Probing insertion: the entry goes to the first empty slot from its home; a full table is unchanged. */
  function Insert(t: seq<HashSignalInfo>, e: HashSignalInfo): (r: seq<HashSignalInfo>)
    requires t != []
    ensures |r| == |t|
  {
    var s := Home(|t|, e.hash);
    match FirstEmpty(t, s, 0)
    case None => t
    case Some(k) => t[Ring(|t|, s, k) := e]
  }

  /** The entry in slot p was reached from its home over occupied slots only, in k steps. */
  ghost predicate ReachedIn(t: seq<HashSignalInfo>, p: nat, k: nat)
    requires p < |t|
  {
    && k < |t|
    && p == Ring(|t|, Home(|t|, t[p].hash), k)
    && forall j :: 0 <= j < k ==> t[Ring(|t|, Home(|t|, t[p].hash), j)].Occupied()
  }

  /** What probing insertion of distinct hashes into an empty table guarantees. */
  ghost predicate Probed(t: seq<HashSignalInfo>) {
    && (forall p :: 0 <= p < |t| && !t[p].Occupied() ==> t[p] == EMPTY_SLOT)
    && (forall p :: 0 <= p < |t| && t[p].Occupied() ==> exists k :: ReachedIn(t, p, k))
    && (forall p, q :: 0 <= p < q < |t| && t[p].Occupied() && t[q].Occupied() ==> t[p].hash != t[q].hash)
  }

  ghost predicate Holds(t: seq<HashSignalInfo>, h: nat) {
    exists p :: 0 <= p < |t| && t[p].Occupied() && t[p].hash == h
  }

  lemma EmptyTableProbed(n: nat)
    ensures Probed(seq(n, _ => EMPTY_SLOT))
  {
  }

  lemma InsertKeepsProbed(t: seq<HashSignalInfo>, e: HashSignalInfo)
    requires t != [] && Probed(t) && e.Occupied() && !Holds(t, e.hash)
    ensures Probed(Insert(t, e))
    ensures forall h :: Holds(Insert(t, e), h) ==> Holds(t, h) || h == e.hash
  {
    var s := Home(|t|, e.hash);
    var f := FirstEmpty(t, s, 0);
    if f.Some? {
      var k := f.value;
      var at := Ring(|t|, s, k);
      var r := t[at := e];
      forall p | 0 <= p < |r| && r[p].Occupied()
        ensures exists j :: ReachedIn(r, p, j)
      {
        if p == at {
          assert ReachedIn(r, p, k);
        } else {
          var j :| ReachedIn(t, p, j);
          assert ReachedIn(r, p, j);
        }
      }
      forall h | Holds(r, h)
        ensures Holds(t, h) || h == e.hash
      {
        var p :| 0 <= p < |r| && r[p].Occupied() && r[p].hash == h;
        if p != at { assert t[p] == r[p]; }
      }
    }
  }

  function CountOccupied(t: seq<HashSignalInfo>): nat {
    if t == [] then 0 else (if t[0].Occupied() then 1 else 0) + CountOccupied(t[1..])
  }

  lemma {:induction false} CountBelowSize(t: seq<HashSignalInfo>)
    ensures CountOccupied(t) <= |t|
    ensures (forall p :: 0 <= p < |t| ==> t[p].Occupied()) <==> CountOccupied(t) == |t|
  {
    if t != [] {
      CountBelowSize(t[1..]);
      assert forall p :: 0 < p < |t| ==> t[p] == t[1..][p - 1];
    }
  }

  lemma {:induction false} CountAfterStore(t: seq<HashSignalInfo>, p: nat, e: HashSignalInfo)
    requires p < |t| && !t[p].Occupied() && e.Occupied()
    ensures CountOccupied(t[p := e]) == CountOccupied(t) + 1
  {
    if p == 0 {
      assert t[0 := e][1..] == t[1..];
    } else {
      assert t[p := e][1..] == t[1..][p - 1 := e];
      CountAfterStore(t[1..], p - 1, e);
    }
  }

  /** A table that is not full takes the entry and keeps the others. */
  lemma InsertStores(t: seq<HashSignalInfo>, e: HashSignalInfo)
    requires t != [] && e.Occupied() && CountOccupied(t) < |t|
    ensures CountOccupied(Insert(t, e)) == CountOccupied(t) + 1
    ensures e in Insert(t, e)
    ensures forall x :: x in t && x.Occupied() ==> x in Insert(t, e)
  {
    var s := Home(|t|, e.hash);
    var f := FirstEmpty(t, s, 0);
    if f.None? {
      forall p | 0 <= p < |t|
        ensures t[p].Occupied()
      {
        RingCovers(|t|, s, p);
        var k: nat :| k < |t| && Ring(|t|, s, k) == p;
      }
      CountBelowSize(t);
    } else {
      var at := Ring(|t|, s, f.value);
      CountAfterStore(t, at, e);
      var r := t[at := e];
      assert r[at] == e;
      forall x | x in t && x.Occupied()
        ensures x in r
      {
        var p :| 0 <= p < |t| && t[p] == x;
        assert r[p] == x;
      }
    }
  }

  /** The table of n slots that probing insertion makes of a list of entries. */
  function Build(n: nat, entries: seq<HashSignalInfo>): (t: seq<HashSignalInfo>)
    requires n > 0
    ensures |t| == n
  {
    if entries == [] then seq(n, _ => EMPTY_SLOT)
    else Insert(Build(n, entries[..|entries| - 1]), entries[|entries| - 1])
  }

  ghost predicate DistinctEntries(entries: seq<HashSignalInfo>) {
    && (forall i :: 0 <= i < |entries| ==> entries[i].Occupied())
    && (forall i, j :: 0 <= i < j < |entries| ==> entries[i].hash != entries[j].hash)
  }

  lemma {:induction false} BuildIsProbed(n: nat, entries: seq<HashSignalInfo>)
    requires n > 0 && |entries| <= n && DistinctEntries(entries)
    ensures var t := Build(n, entries);
            && Probed(t) && CountOccupied(t) == |entries|
            && (forall e :: e in entries ==> e in t)
            && (forall h :: Holds(t, h) ==> exists i :: 0 <= i < |entries| && entries[i].hash == h)
  {
    if entries == [] {
      EmptyTableProbed(n);
      NoneOccupied(n);
    } else {
      var last := |entries| - 1;
      BuildIsProbed(n, entries[..last]);
      InsertBuilt(Build(n, entries[..last]), entries[..last], entries[last]);
      assert entries == entries[..last] + [entries[last]];
    }
  }

  /** Inserting one more entry into a table that holds the others. */
  lemma InsertBuilt(t: seq<HashSignalInfo>, front: seq<HashSignalInfo>, e: HashSignalInfo)
    requires |front| < |t| && Probed(t) && CountOccupied(t) == |front|
    requires e.Occupied() && forall i :: 0 <= i < |front| ==> front[i].Occupied() && front[i].hash != e.hash
    requires forall x :: x in front ==> x in t
    requires forall h :: Holds(t, h) ==> exists i :: 0 <= i < |front| && front[i].hash == h
    ensures var r, all := Insert(t, e), front + [e];
            && Probed(r) && CountOccupied(r) == |all|
            && (forall x :: x in all ==> x in r)
            && (forall h :: Holds(r, h) ==> exists i :: 0 <= i < |all| && all[i].hash == h)
  {
    var r, all := Insert(t, e), front + [e];
    assert !Holds(t, e.hash);
    InsertKeepsProbed(t, e);
    InsertStores(t, e);
    hide Probed, Insert, Holds, CountOccupied;
    assert all[|front|] == e;
    forall h | Holds(r, h)
      ensures exists i :: 0 <= i < |all| && all[i].hash == h
    {
      if h != e.hash {
        var i :| 0 <= i < |front| && front[i].hash == h;
        assert all[i].hash == h;
      }
    }
  }

  lemma {:induction false} NoneOccupied(n: nat)
    ensures CountOccupied(seq(n, _ => EMPTY_SLOT)) == 0
  {
    if n > 0 {
      assert seq(n, _ => EMPTY_SLOT)[1..] == seq(n - 1, _ => EMPTY_SLOT);
      NoneOccupied(n - 1);
    }
  }

  /** Looking up a built table: every entry is found where it is stored, and other non-zero hashes are not found. */
  lemma BuiltTableLookup(n: nat, entries: seq<HashSignalInfo>, h: nat)
    requires n > 0 && |entries| <= n && DistinctEntries(entries)
    ensures forall e :: e in entries && e.hash == h ==>
              Lookup(Build(n, entries), h).Some? && Build(n, entries)[Lookup(Build(n, entries), h).value] == e
    ensures h != 0 && (forall e :: e in entries ==> e.hash != h) ==> Lookup(Build(n, entries), h) == None
  {
    BuildIsProbed(n, entries);
    var t := Build(n, entries);
    forall e | e in entries && e.hash == h
      ensures Lookup(t, h).Some? && t[Lookup(t, h).value] == e
    {
      var p: nat :| p < |t| && t[p] == e;
      LookupFinds(t, p);
    }
    if h != 0 && forall e :: e in entries ==> e.hash != h {
      LookupMisses(t, h);
    }
  }

  // ---- lookup -----------------------------------------------------------------------------------

  /** The slots from k steps on: the first that has the hash, unless an empty one comes first. */
  function Scan(t: seq<HashSignalInfo>, h: nat, s: nat, k: nat): (r: Option<nat>)
    requires s < |t| && k <= |t|
    ensures r.Some? ==> r.value < |t| && t[r.value].hash == h
    decreases |t| - k
  {
    if k == |t| then None
    else
      var p := Ring(|t|, s, k);
      if t[p].hash == h then Some(p)
      else if !t[p].Occupied() then None
      else Scan(t, h, s, k + 1)
  }

  /** The lookup as written: an empty home slot with another hash does not stop it. */
  function Lookup(t: seq<HashSignalInfo>, h: nat): (r: Option<nat>)
    requires t != []
    ensures r.Some? ==> r.value < |t| && t[r.value].hash == h
  {
    var s := Home(|t|, h);
    if t[s].hash == h then Some(s) else Scan(t, h, s, 1)
  }

  /** Where a scan ends: everything before is occupied and has another hash. */
  lemma {:induction false} ScanMeans(t: seq<HashSignalInfo>, h: nat, s: nat, k: nat) returns (j: nat)
    requires s < |t| && k <= |t|
    ensures k <= j <= |t|
    ensures forall i :: k <= i < j ==> t[Ring(|t|, s, i)].signalid != 0 && t[Ring(|t|, s, i)].hash != h
    ensures Scan(t, h, s, k).Some? ==> j < |t| && Scan(t, h, s, k) == Some(Ring(|t|, s, j))
    ensures Scan(t, h, s, k).None? ==> j == |t| || (t[Ring(|t|, s, j)].signalid == 0 && t[Ring(|t|, s, j)].hash != h)
    decreases |t| - k
  {
    j := k;
    if k < |t| && t[Ring(|t|, s, k)].hash != h && t[Ring(|t|, s, k)].Occupied() {
      j := ScanMeans(t, h, s, k + 1);
    }
  }

  /** The steps from s to a slot. */
  lemma Steps(n: nat, s: nat, q: nat) returns (k: nat)
    requires s < n && q < n
    ensures k < n && k == (q + n - s) % n && Ring(n, s, k) == q && (k == 0 <==> q == s)
  {
    k := if q >= s then q - s else q + n - s;
    Wrapped(n, s, q);
  }

  lemma Wrapped(n: nat, s: nat, q: nat)
    requires s < n && q < n
    ensures (q + n - s) % n == if q >= s then q - s else q + n - s
  {
    if q >= s {
      assert (q - s + n) % n == (q - s) % n;
    }
  }

  /**
    What a lookup finds, slot by slot from h % n: the first with the hash, every
    slot passed after the first being occupied; nothing only if an empty slot
    lies before every slot with the hash.
   */
  lemma LookupMeans(t: seq<HashSignalInfo>, h: nat)
    requires t != []
    ensures var n, s, r := |t|, h % |t|, Lookup(t, h);
            && (r.Some? ==>
                  && r.value < n && t[r.value].hash == h
                  && forall q :: 0 <= q < n && (q + n - s) % n < (r.value + n - s) % n ==>
                       t[q].hash != h && (q != s ==> t[q].signalid != 0))
            && (r.None? ==>
                  forall p :: 0 <= p < n && t[p].hash == h ==>
                    exists q :: 0 <= q < n && q != s && (q + n - s) % n < (p + n - s) % n && t[q].signalid == 0)
  {
    var n, s, r := |t|, h % |t|, Lookup(t, h);
    var own := Steps(n, s, s);
    if t[s].hash != h {
      var j := ScanMeans(t, h, s, 1);
      if r.Some? {
        var found := Steps(n, s, r.value);
        RingOnce(n, s, j, found);
        forall q | 0 <= q < n && (q + n - s) % n < (r.value + n - s) % n
          ensures t[q].hash != h && (q != s ==> t[q].signalid != 0)
        {
          var k := Steps(n, s, q);
        }
      } else {
        forall p | 0 <= p < n && t[p].hash == h
          ensures exists q :: 0 <= q < n && q != s && (q + n - s) % n < (p + n - s) % n && t[q].signalid == 0
        {
          var k := Steps(n, s, p);
          var q := Ring(n, s, j);
          var back := Steps(n, s, q);
          RingOnce(n, s, j, back);
        }
      }
    }
  }

  lemma RingOnce(n: nat, s: nat, j: nat, k: nat)
    requires s < n && j < n && k < n && Ring(n, s, j) == Ring(n, s, k)
    ensures j == k
  {
  }

  /** `getInputSignalHashPosition`; None is the failed assertion. It stops by the ring distance back to the home slot. */
  method GetInputSignalHashPosition(table: array<HashSignalInfo>, h: nat) returns (r: Option<nat>)
    requires table.Length > 0
    ensures r == Lookup(table[..], h)
    ensures r.Some? ==>
              var n, s := table.Length, h % table.Length;
              && r.value < n && table[r.value].hash == h
              && forall q :: 0 <= q < n && (q + n - s) % n < (r.value + n - s) % n ==>
                   table[q].hash != h && (q != s ==> table[q].signalid != 0)
    ensures r.None? ==>
              var n, s := table.Length, h % table.Length;
              forall p :: 0 <= p < n && table[p].hash == h ==>
                exists q :: 0 <= q < n && q != s && (q + n - s) % n < (p + n - s) % n && table[q].signalid == 0
  {
    LookupMeans(table[..], h);
    var n := table.Length;
    var pos := h % n;
    if table[pos].hash != h {
      var inipos := pos;
      ghost var k := 1;
      NextSlot(n, inipos, 0);
      pos := (pos + 1) % n;
      while pos != inipos
        invariant 1 <= k <= n && pos == Ring(n, inipos, k)
        invariant Scan(table[..], h, inipos, k) == Scan(table[..], h, inipos, 1)
        decreases n - k
      {
        if table[pos].hash == h { return Some(pos); }
        if table[pos].signalid == 0 { return None; }
        NextSlot(n, inipos, k);
        pos := (pos + 1) % n;
        k := k + 1;
      }
      return None;
    }
    return Some(pos);
  }

  lemma NextSlot(n: nat, s: nat, k: nat)
    requires s < n && k < n
    ensures (Ring(n, s, k) + 1) % n == Ring(n, s, k + 1)
  {
  }

  /** If the scan passes only other hashes in occupied slots, it arrives at the wanted one. */
  lemma {:induction false} ScanArrives(t: seq<HashSignalInfo>, h: nat, s: nat, k: nat, goal: nat)
    requires s < |t| && k <= goal < |t|
    requires t[Ring(|t|, s, goal)].hash == h
    requires forall j :: k <= j < goal ==> t[Ring(|t|, s, j)].Occupied() && t[Ring(|t|, s, j)].hash != h
    ensures Scan(t, h, s, k) == Some(Ring(|t|, s, goal))
    decreases goal - k
  {
    if k < goal {
      ScanArrives(t, h, s, k + 1, goal);
    }
  }

  /** On a probed table a stored hash is found in the one slot that holds it. */
  lemma LookupFinds(t: seq<HashSignalInfo>, p: nat)
    requires Probed(t) && p < |t| && t[p].Occupied()
    ensures Lookup(t, t[p].hash) == Some(p)
  {
    var h := t[p].hash;
    var s := Home(|t|, h);
    var k: nat :| ReachedIn(t, p, k);
    if k > 0 {
      forall j | 0 <= j < k
        ensures t[Ring(|t|, s, j)].Occupied() && t[Ring(|t|, s, j)].hash != h
      {
        RingInjective(|t|, s, j, k);
        Distinct(t, Ring(|t|, s, j), p);
      }
      assert Ring(|t|, s, 0) == s;
      ScanArrives(t, h, s, 1, k);
    }
  }

  lemma Distinct(t: seq<HashSignalInfo>, p: nat, q: nat)
    requires Probed(t) && p < |t| && q < |t| && p != q && t[p].Occupied() && t[q].Occupied()
    ensures t[p].hash != t[q].hash
  {
    if p < q { assert t[p].hash != t[q].hash; } else { assert t[q].hash != t[p].hash; }
  }

  /**
    A hash that is not stored is reported missing, except for hash 0 in a table
    with an empty slot: there the lookup takes an empty slot for the signal,
    because it compares hashes before it tests for emptiness.
   */
  lemma LookupMisses(t: seq<HashSignalInfo>, h: nat)
    requires t != [] && Probed(t) && !Holds(t, h)
    ensures Lookup(t, h) == None <==> h != 0 || forall p :: 0 <= p < |t| ==> t[p].Occupied()
  {
    var s := Home(|t|, h);
    if h != 0 || forall p :: 0 <= p < |t| ==> t[p].Occupied() {
      forall p | 0 <= p < |t|
        ensures t[p].hash != h
      {
        if t[p].Occupied() {
          assert !(t[p].hash == h);
        }
      }
    } else {
      var p :| 0 <= p < |t| && !t[p].Occupied();
      if t[s].Occupied() {
        RingCovers(|t|, s, p);
        var k: nat :| k < |t| && Ring(|t|, s, k) == p;
        ScanStops(t, s, 1, k);
      }
    }
  }

  /** The signal with hash 1 alone in a table of two: hash 0 is found in the empty slot before it. */
  lemma HashZeroExample()
    ensures var t := Build(2, [HashSignalInfo(1, 5, 1)]);
            Probed(t) && !Holds(t, 0) && Lookup(t, 0) == Some(0)
  {
    var e := HashSignalInfo(1, 5, 1);
    BuildIsProbed(2, [e]);
    assert [e][..0] == [] && Build(2, []) == [EMPTY_SLOT, EMPTY_SLOT];
    assert Home(2, 1) == 1;
    assert Build(2, [e]) == [EMPTY_SLOT, e];
  }

  lemma RingCovers(n: nat, s: nat, p: nat)
    requires s < n && p < n
    ensures exists k: nat :: k < n && Ring(n, s, k) == p
  {
    var k := if p >= s then p - s else p + n - s;
    assert Ring(n, s, k) == p;
  }

  /** Scanning for hash 0 always stops at an empty slot ahead. */
  lemma {:induction false} ScanStops(t: seq<HashSignalInfo>, s: nat, k: nat, goal: nat)
    requires s < |t| && k <= goal < |t|
    requires Probed(t) && !t[Ring(|t|, s, goal)].Occupied()
    ensures Scan(t, 0, s, k).Some?
    decreases goal - k
  {
    if k < goal && t[Ring(|t|, s, k)].Occupied() && t[Ring(|t|, s, k)].hash != 0 {
      ScanStops(t, s, k + 1, goal);
    }
  }

  lemma RingInjective(n: nat, s: nat, j: nat, k: nat)
    requires s < n && j < k < n
    ensures Ring(n, s, j) != Ring(n, s, k)
  {
  }
}
