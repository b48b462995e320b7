/** A typed array of words that remembers every store made to it. */
module WordBuffers {
  import opened WordArrays

  /** A store: the index and the word. */
  type Entry = (nat, Word32)

  class WordBuffer {
    const words: array<Word32>
    ghost var log: seq<Entry>

    /** The contents are what the logged stores make of a zeroed array. */
    ghost predicate Valid()
      reads this, words
    {
      Within(words.Length, log) && words[..] == Replay(words.Length, log)
    }

    constructor (n: nat)
      ensures Valid() && fresh(words) && words.Length == n && log == []
    {
      words := new Word32[n](_ => 0);
      log := [];
      new;
      assert words[..] == seq(n, _ => 0);
    }

    method Store(i: nat, v: Word32)
      requires Valid() && i < words.Length
      modifies this, words
      ensures Valid() && log == old(log) + [(i, v)]
    {
      ghost var before := words[..];
      words[i] := v;
      log := log + [(i, v)];
      assert log[..|log| - 1] == old(log);
      assert words[..] == before[i := v];
    }
  }

  ghost predicate Within(n: nat, log: seq<Entry>) {
    forall k :: 0 <= k < |log| ==> log[k].0 < n
  }

  /** What a sequence of stores makes of n zeros. */
  function Replay(n: nat, log: seq<Entry>): (r: seq<Word32>)
    requires Within(n, log)
    ensures |r| == n
  {
    if log == [] then seq(n, _ => 0)
    else
      var last := |log| - 1;
      Replay(n, log[..last])[log[last].0 := log[last].1]
  }

  /** How often an index is stored to. */
  function StoresTo(log: seq<Entry>, i: nat): nat {
    if log == [] then 0
    else StoresTo(log[..|log| - 1], i) + if log[|log| - 1].0 == i then 1 else 0
  }

  /** Store k goes to word k. */
  ghost predicate InOrder(log: seq<Entry>) {
    forall k :: 0 <= k < |log| ==> log[k].0 == k
  }

  function Stored(log: seq<Entry>): (r: seq<Word32>)
    ensures |r| == |log|
  {
    seq(|log|, k requires 0 <= k < |log| => log[k].1)
  }

  lemma {:induction false} StoredOnce(log: seq<Entry>, i: nat)
    requires InOrder(log)
    ensures StoresTo(log, i) == if i < |log| then 1 else 0
  {
    if log != [] {
      StoredOnce(log[..|log| - 1], i);
    }
  }

  lemma {:induction false} ReplayInOrder(n: nat, log: seq<Entry>)
    requires Within(n, log) && InOrder(log) && |log| <= n
    ensures Replay(n, log) == Stored(log) + seq(n - |log|, _ => 0)
  {
    if log != [] {
      ReplayInOrder(n, log[..|log| - 1]);
    }
  }

  /** Stores that go through all the words in order: each word is stored to once, and the log is the contents. */
  lemma FilledInOrder(buffer: WordBuffer)
    requires buffer.Valid() && InOrder(buffer.log) && |buffer.log| == buffer.words.Length
    ensures buffer.words[..] == Stored(buffer.log)
    ensures forall i :: 0 <= i < buffer.words.Length ==> StoresTo(buffer.log, i) == 1
  {
    ReplayInOrder(buffer.words.Length, buffer.log);
    forall i | 0 <= i < buffer.words.Length
      ensures StoresTo(buffer.log, i) == 1
    {
      StoredOnce(buffer.log, i);
    }
  }
}
