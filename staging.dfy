/** The write-behind staging queue shared by both engines: `store` appends a
    (key, value) pair to a deque and `offload_store` pops pairs from its right
    end until it is empty, assigning each into a dictionary. */
module Staging {

  /** The keys of the pairs in `queue`. */
  function StoredKeys<K, V>(queue: seq<(K, V)>): set<K>
    decreases |queue|
  {
    if queue == [] then {} else StoredKeys(queue[..|queue| - 1]) + {queue[|queue| - 1].0}
  }

  /** The dictionary left by `while q: k, v = q.pop(); d[k] = v`: the last pair
      is popped (and assigned) first, so the pair stored first is assigned last. */
  function Drained<K, V>(m: map<K, V>, queue: seq<(K, V)>): (r: map<K, V>)
    ensures r.Keys == m.Keys + StoredKeys(queue)
    decreases |queue|
  {
    if queue == [] then m
    else Drained(m[queue[|queue| - 1].0 := queue[|queue| - 1].1], queue[..|queue| - 1])
  }

  /** The loop itself: pop the last pair and assign it until the queue is
      empty. */
  method Drain<K, V>(m: map<K, V>, queue: seq<(K, V)>) returns (r: map<K, V>)
    ensures r == Drained(m, queue)
  {
    r := m;
    var q := queue;
    while q != []
      invariant Drained(r, q) == Drained(m, queue)
      decreases |q|
    {
      var n := |q| - 1;
      r := r[q[n].0 := q[n].1];
      q := q[..n];
    }
  }

  /** Position `i` holds the earliest-stored pair for its key. */
  ghost predicate EarliestAt<K, V>(queue: seq<(K, V)>, i: int)
  {
    0 <= i < |queue| && forall j :: 0 <= j < i ==> queue[j].0 != queue[i].0
  }

  /** A key at no position of the queue is not among its stored keys. */
  lemma {:induction false} NotStored<K, V>(queue: seq<(K, V)>, k: K)
    requires forall j :: 0 <= j < |queue| ==> queue[j].0 != k
    ensures k !in StoredKeys(queue)
    decreases |queue|
  {
    if queue != [] {
      NotStored(queue[..|queue| - 1], k);
    }
  }

  /** Draining the queue into `m`: a key gets the value of its EARLIEST stored
      pair, and keys never stored keep their binding in `m`. */
  lemma {:induction false} DrainedAt<K, V>(m: map<K, V>, queue: seq<(K, V)>, k: K)
    ensures k !in StoredKeys(queue) && k in m ==> Drained(m, queue)[k] == m[k]
    ensures forall i :: EarliestAt(queue, i) && queue[i].0 == k ==>
      k in Drained(m, queue) && Drained(m, queue)[k] == queue[i].1
    decreases |queue|
  {
    if queue != [] {
      var n := |queue| - 1;
      var prefix := queue[..n];
      var m' := m[queue[n].0 := queue[n].1];
      DrainedAt(m', prefix, k);
      assert Drained(m, queue) == Drained(m', prefix);
      forall i | EarliestAt(queue, i) && queue[i].0 == k
        ensures k in Drained(m, queue) && Drained(m, queue)[k] == queue[i].1
      {
        if i < n {
          assert prefix[i] == queue[i];
          assert EarliestAt(prefix, i);
        } else {
          NotStored(prefix, k);
        }
      }
    }
  }
}
