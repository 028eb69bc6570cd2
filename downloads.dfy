/** Simulated download progress: a map from game id to a whole percentage. */
module Downloads {

  /** The percentage at which a download stops advancing. */
  const Complete: int := 100

  /** Every entry lies in [0, 100]. */
  predicate WithinBounds(m: map<int, int>)
  {
    forall k :: k in m ==> 0 <= m[k] <= Complete
  }

  /** startDownload: the entry for `id` becomes 0, whatever it was before. */
  function StartDownload(m: map<int, int>, id: int): (r: map<int, int>)
    ensures r.Keys == m.Keys + {id}
    ensures r[id] == 0
    ensures forall k :: k in m && k != id ==> r[k] == m[k]
    ensures WithinBounds(m) ==> WithinBounds(r)
  {
    m[id := 0]
  }

  /** The state after one tick of the timer: every entry below 100 goes up by one. */
  function Ticked(m: map<int, int>): (r: map<int, int>)
    ensures r.Keys == m.Keys
    ensures WithinBounds(m) ==> WithinBounds(r)
    ensures forall k :: k in m ==> m[k] <= r[k] <= m[k] + 1
  {
    map k | k in m :: if m[k] < Complete then m[k] + 1 else m[k]
  }

  /** The body of the timer callback: copy the map, then raise each entry below 100 by one, key by key. */
  method Tick(prev: map<int, int>) returns (next: map<int, int>)
    ensures next.Keys == prev.Keys
    ensures forall k :: k in prev && prev[k] < Complete ==> next[k] == prev[k] + 1
    ensures forall k :: k in prev && prev[k] >= Complete ==> next[k] == prev[k]
    ensures next == Ticked(prev)
  {
    next := prev;
    var pending := prev.Keys;
    while exists k :: k in pending
      invariant pending <= prev.Keys
      invariant next.Keys == prev.Keys
      invariant forall k :: k in prev && k !in pending ==>
        next[k] == if prev[k] < Complete then prev[k] + 1 else prev[k]
      invariant forall k :: k in pending ==> next[k] == prev[k]
      decreases pending
    {
      var k :| k in pending;
      if next[k] < Complete {
        next := next[k := next[k] + 1];
      }
      pending := pending - {k};
    }
  }

  /** The state after `n` ticks. */
  function Ticks(m: map<int, int>, n: nat): (r: map<int, int>)
    ensures r.Keys == m.Keys
    decreases n
  {
    if n == 0 then m else Ticks(Ticked(m), n - 1)
  }

  function Min(a: int, b: int): int { if a <= b then a else b }

  /** Ticks never add or drop a key, and move an entry v <= 100 to min(v + n, 100). */
  lemma {:induction false} TicksSpec(m: map<int, int>, n: nat, k: int)
    requires k in m && m[k] <= Complete
    ensures Ticks(m, n)[k] == Min(m[k] + n, Complete)
    decreases n
  {
    if n > 0 {
      TicksSpec(Ticked(m), n - 1, k);
    }
  }

  /** A download started at 0 shows min(n, 100) after n ticks. */
  lemma StartThenTicks(m: map<int, int>, id: int, n: nat)
    ensures Ticks(StartDownload(m, id), n)[id] == Min(n, Complete)
  {
    TicksSpec(StartDownload(m, id), n, id);
  }

  /** Ticking keeps every entry in [0, 100] and never lowers an entry. */
  lemma {:induction false} TicksKeepBounds(m: map<int, int>, n: nat)
    requires WithinBounds(m)
    ensures WithinBounds(Ticks(m, n))
    ensures forall k :: k in m ==> m[k] <= Ticks(m, n)[k]
    decreases n
  {
    if n > 0 {
      TicksKeepBounds(Ticked(m), n - 1);
    }
  }

  /** Restarting a running or finished download puts it back to 0: on such a download start is not a no-op. */
  lemma RestartResets(m: map<int, int>, id: int)
    requires id in m && m[id] > 0
    ensures StartDownload(m, id) != m
  {
    assert StartDownload(m, id)[id] != m[id];
  }

  /** Starting twice in a row is the same as starting once: progress is 0 either way. */
  lemma StartTwiceIsStartOnce(m: map<int, int>, id: int)
    ensures StartDownload(StartDownload(m, id), id) == StartDownload(m, id)
  {
  }
}
