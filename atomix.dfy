/** The multi-version engine of atomix.py: per-identity pending writes, a read
    cache and a staging deque in memory, and the `atomix_data` table, which
    maps each (identity, key) to its chain of versions, as a map. */
module AtomixEngine {
  import opened Base
  import opened Staging
  import opened Versions

  type Identity = string

  /** The `versions` column of one row: oldest entry first. */
  type Chain = seq<VersionedData>

  /** One identity's `transaction_reads`: key → value pinned by a read. */
  type Cache = map<Key, Option<Value>>

  /** The default of `garbage_collector`'s `max_versions`. */
  const DefaultMaxVersions: int := 10

  /** A value in the pending map. `write` and `delete` put records there;
      `offload_store` puts whatever was stored, which commit skips unless it
      is a record. */
  datatype Entry = Record(data: VersionedData) | Plain(value: Option<Value>)

  /** What a read returns, with the identity's read cache after it. */
  datatype Resolved = Resolved(value: Option<Value>, cache: Cache)

  /** The row for `key`, if the table has one. */
  function ChainAt(rows: map<Key, Chain>, key: Key): Option<Chain>
  {
    if key in rows then Some(rows[key]) else None
  }

  /** The chain a commit appends to: the row's, or a new empty one. */
  function Prior(rows: map<Key, Chain>, key: Key): Chain
  {
    if key in rows then rows[key] else []
  }

  // ---------------------------------------------------------------------------
  // Read

  /** The isolation-level read of `key`, given its row (None when the table
      has no row) and the identity's read cache. */
  function ReadAt(row: Option<Chain>, cache: Cache, key: Key, txVersion: int, globalVersion: int,
                  level: IsolationLevel): (r: Resolved)
    // no row: nothing is read and nothing is cached, whatever the level
    ensures row.None? ==> r == Resolved(None, cache)
    // READ_UNCOMMITTED: the newest entry, unless it is a tombstone or there is none
    ensures row.Some? && level == ReadUncommitted ==>
      r.cache == cache &&
      r.value == (if |row.value| > 0 && !row.value[|row.value| - 1].deleted
                  then row.value[|row.value| - 1].value else None)
    // READ_COMMITTED: the newest entry visible under the global version; never cached
    ensures row.Some? && level == ReadCommitted ==>
      r.cache == cache &&
      (NoneQualifies(row.value, globalVersion) ==> r.value == None) &&
      (forall i :: IsNewestQualifying(row.value, globalVersion, i) ==> r.value == row.value[i].value)
    // REPEATABLE_READ: a cached key answers from the cache; otherwise the newest
    // entry visible under the transaction's version is cached and returned
    ensures row.Some? && level == RepeatableRead ==>
      (key in cache ==> r == Resolved(cache[key], cache)) &&
      (key !in cache && NoneQualifies(row.value, txVersion) ==> r == Resolved(None, cache)) &&
      (key !in cache ==> forall i :: IsNewestQualifying(row.value, txVersion, i) ==>
         r == Resolved(row.value[i].value, cache[key := row.value[i].value]))
    // SERIALIZABLE: the cache answers only when some entry is visible; the first
    // visible value is cached only for a key not yet cached
    ensures row.Some? && level == Serializable ==>
      (NoneQualifies(row.value, txVersion) ==> r == Resolved(None, cache)) &&
      (forall i :: IsNewestQualifying(row.value, txVersion, i) ==>
         r.cache == (if key in cache then cache else cache[key := row.value[i].value]) &&
         key in r.cache && r.value == r.cache[key])
  {
    match row
    case None => Resolved(None, cache)
    case Some(chain) =>
      match level
      case ReadUncommitted =>
        if |chain| > 0 && !chain[|chain| - 1].deleted then Resolved(chain[|chain| - 1].value, cache)
        else Resolved(None, cache)
      case ReadCommitted =>
        (match NewestQualifying(chain, globalVersion)
         case Some(i) => Resolved(chain[i].value, cache)
         case None => Resolved(None, cache))
      case RepeatableRead =>
        if key in cache then Resolved(cache[key], cache)
        else
          (match NewestQualifying(chain, txVersion)
           case Some(i) => Resolved(chain[i].value, cache[key := chain[i].value])
           case None => Resolved(None, cache))
      case Serializable =>
        match NewestQualifying(chain, txVersion)
        case Some(i) =>
          var pinned := if key in cache then cache else cache[key := chain[i].value];
          Resolved(pinned[key], pinned)
        case None => Resolved(None, cache)
  }

  /** A key pinned by a REPEATABLE_READ read answers every later REPEATABLE_READ
      read the same, whatever was committed in between and whatever the later
      transaction version. Both reads find a row: a read of a key without a
      row returns None even when the key is cached. */
  lemma RepeatableReadPins(first: Option<Chain>, later: Option<Chain>, cache: Cache, key: Key,
                           txVersion: int, laterTxVersion: int, globalVersion: int)
    requires first.Some? && later.Some?
    requires key in ReadAt(first, cache, key, txVersion, globalVersion, RepeatableRead).cache
    ensures var r1 := ReadAt(first, cache, key, txVersion, globalVersion, RepeatableRead);
            ReadAt(later, r1.cache, key, laterTxVersion, globalVersion, RepeatableRead) == r1
  {
    var r1 := ReadAt(first, cache, key, txVersion, globalVersion, RepeatableRead);
    if key !in cache {
      var n := NewestQualifying(first.value, txVersion);
      if n.Some? {
        assert IsNewestQualifying(first.value, txVersion, n.value);
        assert r1.value == r1.cache[key];
      }
    }
  }

  /** SERIALIZABLE reads as REPEATABLE_READ does, except for a cached key of
      which no entry is visible: there it returns None and REPEATABLE_READ the
      cached value. */
  lemma SerializableVersusRepeatableRead(chain: Chain, cache: Cache, key: Key, txVersion: int,
                                         globalVersion: int)
    ensures !(key in cache && NoneQualifies(chain, txVersion)) ==>
      ReadAt(Some(chain), cache, key, txVersion, globalVersion, Serializable) ==
      ReadAt(Some(chain), cache, key, txVersion, globalVersion, RepeatableRead)
    ensures key in cache && NoneQualifies(chain, txVersion) ==>
      ReadAt(Some(chain), cache, key, txVersion, globalVersion, Serializable) == Resolved(None, cache) &&
      ReadAt(Some(chain), cache, key, txVersion, globalVersion, RepeatableRead) == Resolved(cache[key], cache)
  {
    var n := NewestQualifying(chain, txVersion);
    if n.Some? {
      assert IsNewestQualifying(chain, txVersion, n.value);
    }
  }

  // ---------------------------------------------------------------------------
  // Commit

  /** The pending value of `k` is a record, which commit writes. */
  predicate IsRecord(pending: map<Key, Entry>, k: Key)
  {
    k in pending && pending[k].Record?
  }

  /** The identity's rows after commit: each pending record, marked committed,
      is appended to the end of its key's chain (a new row when there was
      none); plain pending values are skipped and other rows are untouched. */
  function CommitRows(rows: map<Key, Chain>, pending: map<Key, Entry>): (r: map<Key, Chain>)
    ensures forall k :: k in r <==> k in rows || IsRecord(pending, k)
    ensures forall k :: IsRecord(pending, k) ==> r[k] == Prior(rows, k) + [Committed(pending[k].data)]
    ensures forall k :: k in rows && !IsRecord(pending, k) ==> r[k] == rows[k]
  {
    map k | k in rows.Keys + pending.Keys && (k in rows || IsRecord(pending, k)) ::
      if IsRecord(pending, k) then Prior(rows, k) + [Committed(pending[k].data)] else rows[k]
  }

  /** Committing one more pending record appends it to its chain and changes
      nothing else. */
  lemma CommitRowsStepRecord(rows: map<Key, Chain>, done: map<Key, Entry>, k: Key, d: VersionedData)
    requires k !in done
    ensures CommitRows(rows, done[k := Record(d)]) ==
      CommitRows(rows, done)[k := Prior(CommitRows(rows, done), k) + [Committed(d)]]
  {
    var before := CommitRows(rows, done);
    var after := CommitRows(rows, done[k := Record(d)]);
    var expected := before[k := Prior(before, k) + [Committed(d)]];
    assert Prior(before, k) == Prior(rows, k);
    forall j ensures j in after <==> j in expected {
      assert IsRecord(done[k := Record(d)], j) <==> j == k || IsRecord(done, j);
    }
    forall j | j in after ensures after[j] == expected[j] {
      assert IsRecord(done[k := Record(d)], j) <==> j == k || IsRecord(done, j);
      if j != k && IsRecord(done, j) {
        assert done[k := Record(d)][j] == done[j];
      }
    }
  }

  /** A pending plain value changes nothing that commit writes. */
  lemma CommitRowsStepPlain(rows: map<Key, Chain>, done: map<Key, Entry>, k: Key, v: Option<Value>)
    requires k !in done
    ensures CommitRows(rows, done[k := Plain(v)]) == CommitRows(rows, done)
  {
    var before := CommitRows(rows, done);
    var after := CommitRows(rows, done[k := Plain(v)]);
    forall j ensures j in after <==> j in before {
      assert IsRecord(done[k := Plain(v)], j) <==> IsRecord(done, j);
    }
    forall j | j in after ensures after[j] == before[j] {
      assert IsRecord(done[k := Plain(v)], j) <==> IsRecord(done, j);
      if IsRecord(done, j) {
        assert done[k := Plain(v)][j] == done[j];
      }
    }
  }

  /** The loop of `commit` over the pending map, one key at a time. */
  method CommitLoop(rows: map<Key, Chain>, pending: map<Key, Entry>) returns (r: map<Key, Chain>)
    ensures r == CommitRows(rows, pending)
  {
    r := rows;
    var todo := pending.Keys;
    ghost var done: map<Key, Entry> := map[];
    while todo != {}
      invariant todo <= pending.Keys && done.Keys == pending.Keys - todo
      invariant forall k :: k in done ==> done[k] == pending[k]
      invariant r == CommitRows(rows, done)
      decreases todo
    {
      var k :| k in todo;
      match pending[k] {
        case Record(d) =>
          CommitRowsStepRecord(rows, done, k, d);
          r := r[k := Prior(r, k) + [Committed(d)]];
        case Plain(v) =>
          CommitRowsStepPlain(rows, done, k, v);
      }
      done := done[k := pending[k]];
      todo := todo - {k};
    }
    assert done == pending;
  }

  /** Every entry of every chain is committed. */
  ghost predicate ChainsCommitted(rows: map<Key, Chain>)
  {
    forall k, i :: k in rows && 0 <= i < |rows[k]| ==> rows[k][i].committed
  }

  /** Commit only ever adds committed entries. */
  lemma CommitKeepsChainsCommitted(rows: map<Key, Chain>, pending: map<Key, Entry>)
    requires ChainsCommitted(rows)
    ensures ChainsCommitted(CommitRows(rows, pending))
  {
    var r: map<Key, Chain> := CommitRows(rows, pending);
    forall k: Key, i: int | k in r && 0 <= i < |r[k]| ensures r[k][i].committed {
      if IsRecord(pending, k) && i < |Prior(rows, k)| {
        assert r[k][i] == Prior(rows, k)[i];
      }
    }
  }

  /** After commit, READ_UNCOMMITTED sees a committed record unless it is a
      tombstone. */
  lemma CommitVisibleToReadUncommitted(rows: map<Key, Chain>, pending: map<Key, Entry>, key: Key,
                                       cache: Cache, txVersion: int, globalVersion: int)
    requires IsRecord(pending, key)
    ensures ReadAt(ChainAt(CommitRows(rows, pending), key), cache, key, txVersion, globalVersion,
                   ReadUncommitted)
         == Resolved(if pending[key].data.deleted then None else pending[key].data.value, cache)
  {
  }

  /** A committed record that READ_COMMITTED may not see (a tombstone, or a
      version above the global version) changes nothing READ_COMMITTED returns:
      the older visible value, if any, is still what it reads. */
  lemma CommitOfHiddenEntry(rows: map<Key, Chain>, pending: map<Key, Entry>, key: Key,
                             cache: Cache, txVersion: int, globalVersion: int)
    requires IsRecord(pending, key)
    requires !Qualifies(Committed(pending[key].data), globalVersion)
    ensures ReadAt(ChainAt(CommitRows(rows, pending), key), cache, key, txVersion, globalVersion, ReadCommitted)
         == ReadAt(ChainAt(rows, key), cache, key, txVersion, globalVersion, ReadCommitted)
  {
    var d := Committed(pending[key].data);
    var after := CommitRows(rows, pending)[key];
    assert after == Prior(rows, key) + [d];
    AppendHiddenEntry(Prior(rows, key), d, globalVersion);
    if key !in rows {
      assert NewestQualifying([], globalVersion) == None;
    }
  }

  /** A committed record READ_COMMITTED may see is what it reads next. */
  lemma CommitOfVisibleEntry(rows: map<Key, Chain>, pending: map<Key, Entry>, key: Key,
                             cache: Cache, txVersion: int, globalVersion: int)
    requires IsRecord(pending, key)
    requires Qualifies(Committed(pending[key].data), globalVersion)
    ensures ReadAt(ChainAt(CommitRows(rows, pending), key), cache, key, txVersion, globalVersion, ReadCommitted)
         == Resolved(pending[key].data.value, cache)
  {
    var after := CommitRows(rows, pending)[key];
    assert IsNewestQualifying(after, globalVersion, |after| - 1);
  }

  /** The write-commit-read scenario with the global version left at 0:
      versions 1 and 2 are committed and READ_COMMITTED reads neither. */
  lemma ReadCommittedScenario(x: Key, v1: Value, v2: Value, cache: Cache, txVersion: int)
    ensures var rows1 := CommitRows(map[], map[x := Record(VersionedData(Some(v1), 1, false, false))]);
            var rows2 := CommitRows(rows1, map[x := Record(VersionedData(Some(v2), 2, false, false))]);
            ReadAt(ChainAt(rows1, x), cache, x, txVersion, 0, ReadCommitted) == Resolved(None, cache) &&
            ReadAt(ChainAt(rows2, x), cache, x, txVersion, 0, ReadCommitted) == Resolved(None, cache)
  {
    var p1 := map[x := Record(VersionedData(Some(v1), 1, false, false))];
    var p2 := map[x := Record(VersionedData(Some(v2), 2, false, false))];
    var rows1 := CommitRows(map[], p1);
    assert IsRecord(p1, x) && IsRecord(p2, x);
    CommitOfHiddenEntry(map[], p1, x, cache, txVersion, 0);
    CommitOfHiddenEntry(rows1, p2, x, cache, txVersion, 0);
  }

  /** A key whose earliest stored value is not a record ends up in the pending
      map as a plain value after `offload_store`, and commit then writes
      nothing for it: its row stays as it was, or stays absent. */
  lemma OffloadedPlainValueNotCommitted(rows: map<Key, Chain>, pending: map<Key, Entry>,
                                        queue: seq<(Key, Entry)>, i: int)
    requires EarliestAt(queue, i) && queue[i].1.Plain?
    ensures ChainAt(CommitRows(rows, Drained(pending, queue)), queue[i].0) == ChainAt(rows, queue[i].0)
  {
    DrainedAt(pending, queue, queue[i].0);
    assert !IsRecord(Drained(pending, queue), queue[i].0);
  }

  // ---------------------------------------------------------------------------
  // Garbage collection

  /** The keys whose chain is longer than `maxVersions`. */
  function TrimmedKeys(rows: map<Key, Chain>, maxVersions: int): (ks: set<Key>)
    ensures forall k :: k in ks <==> k in rows && |rows[k]| > maxVersions
  {
    set k | k in rows && |rows[k]| > maxVersions
  }

  /** One chain after garbage collection: a chain longer than `maxVersions`
      becomes `versions[-maxVersions:]`, a shorter one stays. For a positive
      bound that is its newest `maxVersions` entries in order; a bound of 0
      keeps the chain whole; a negative bound drops its oldest entries. */
  function Trim(chain: Chain, maxVersions: int): (r: Chain)
    ensures |r| <= |chain| && r == chain[|chain| - |r|..]
    ensures maxVersions > 0 ==> |r| == Min(maxVersions, |chain|)
    ensures maxVersions == 0 ==> r == chain
    ensures maxVersions < 0 ==> |r| == Max(|chain| + maxVersions, 0)
  {
    if |chain| > maxVersions then SliceFromEnd(chain, maxVersions) else chain
  }

  /** The identity's rows after garbage collection: every chain trimmed, no
      row added or removed. */
  function Collect(rows: map<Key, Chain>, maxVersions: int): (r: map<Key, Chain>)
    ensures r.Keys == rows.Keys
    ensures forall k :: k in rows ==> r[k] == Trim(rows[k], maxVersions)
  {
    map k | k in rows :: Trim(rows[k], maxVersions)
  }

  /** The first loop of `garbage_collector`: the trimmed chain of every key
      whose chain is longer than `maxVersions`, and of no other key. */
  method TrimUpdates(rows: map<Key, Chain>, maxVersions: int) returns (updates: map<Key, Chain>)
    ensures updates.Keys == TrimmedKeys(rows, maxVersions)
    ensures forall k :: k in updates ==> updates[k] == Trim(rows[k], maxVersions)
  {
    updates := map[];
    var todo := rows.Keys;
    while todo != {}
      invariant todo <= rows.Keys
      invariant forall k :: k in updates <==> k in rows && k !in todo && |rows[k]| > maxVersions
      invariant forall k :: k in updates ==> updates[k] == Trim(rows[k], maxVersions)
      decreases todo
    {
      var k :| k in todo;
      if |rows[k]| > maxVersions {
        updates := updates[k := SliceFromEnd(rows[k], maxVersions)];
      }
      todo := todo - {k};
    }
  }

  /** Writing the updates back over the rows gives the collected rows. */
  lemma ApplyUpdates(rows: map<Key, Chain>, updates: map<Key, Chain>, maxVersions: int)
    requires updates.Keys == TrimmedKeys(rows, maxVersions)
    requires forall k :: k in updates ==> updates[k] == Trim(rows[k], maxVersions)
    ensures rows + updates == Collect(rows, maxVersions)
    ensures updates == map[] ==> rows == Collect(rows, maxVersions)
  {
    var c := Collect(rows, maxVersions);
    assert (rows + updates).Keys == c.Keys;
    forall k | k in c ensures (rows + updates)[k] == c[k] {
      if k !in updates {
        assert |rows[k]| <= maxVersions;
      }
    }
  }

  /** With a non-negative bound a second collection changes nothing, and with a
      positive one it trims no key. */
  lemma CollectIdempotent(rows: map<Key, Chain>, maxVersions: int)
    requires maxVersions >= 0
    ensures Collect(Collect(rows, maxVersions), maxVersions) == Collect(rows, maxVersions)
    ensures maxVersions > 0 ==> TrimmedKeys(Collect(rows, maxVersions), maxVersions) == {}
  {
    var c := Collect(rows, maxVersions);
    forall k | k in c
      ensures Trim(c[k], maxVersions) == c[k]
      ensures maxVersions > 0 ==> |c[k]| <= maxVersions
    {
      TrimTwice(rows[k], maxVersions);
    }
    assert Collect(c, maxVersions) == c;
  }

  /** Trimming a chain a second time changes nothing, and a positive bound
      leaves at most `maxVersions` entries. */
  lemma TrimTwice(chain: Chain, maxVersions: int)
    requires maxVersions >= 0
    ensures Trim(Trim(chain, maxVersions), maxVersions) == Trim(chain, maxVersions)
    ensures maxVersions > 0 ==> |Trim(chain, maxVersions)| <= maxVersions
  {
  }

  /** Every chain of every identity is committed. */
  ghost predicate TableChainsCommitted(t: map<Identity, map<Key, Chain>>)
  {
    forall id :: id in t ==> ChainsCommitted(t[id])
  }

  /** Replacing one identity's rows by fully committed ones keeps the whole
      table committed. */
  lemma ReplaceRowsKeepsCommitted(t: map<Identity, map<Key, Chain>>, id: Identity, rows: map<Key, Chain>)
    requires TableChainsCommitted(t) && ChainsCommitted(rows)
    ensures TableChainsCommitted(t[id := rows])
  {
  }

  /** Garbage collection only drops entries. */
  lemma CollectKeepsChainsCommitted(rows: map<Key, Chain>, maxVersions: int)
    requires ChainsCommitted(rows)
    ensures ChainsCommitted(Collect(rows, maxVersions))
  {
    var r: map<Key, Chain> := Collect(rows, maxVersions);
    forall k: Key, i: int | k in r && 0 <= i < |r[k]| ensures r[k][i].committed {
      assert r[k][i] == rows[k][|rows[k]| - |r[k]| + i];
    }
  }

  /** Writing back the value a key already has leaves a map as it was. */
  lemma UpdateWithSameValue<K, V>(m: map<K, V>, k: K)
    requires k in m
    ensures m[k := m[k]] == m
  {
  }

  // ---------------------------------------------------------------------------
  // The engine

  /** The engine object: its counters, the per-identity maps it keeps in
      memory and the table it writes through. */
  class Atomix {
    /** Number of identities registered. */
    var count: nat
    /** The bound of READ_COMMITTED reads and the version of tombstones;
        assigned only at construction. */
    const globalVersion: int
    /** The `atomix_data` table: identity → key → version chain. */
    var table: map<Identity, map<Key, Chain>>
    /** `_transactions`: identity → key → pending entry. */
    var transactions: map<Identity, map<Key, Entry>>
    /** `_stores`: identity → staged (key, value) pairs, right end newest. */
    var stores: map<Identity, seq<(Key, Entry)>>
    /** `transaction_reads`: identity → read cache. */
    var transactionReads: map<Identity, Cache>

    /** A new engine over a table that may already hold rows. */
    constructor (existing: map<Identity, map<Key, Chain>>)
      ensures count == 0 && globalVersion == 0 && table == existing
      ensures transactions == map[] && stores == map[] && transactionReads == map[]
    {
      count := 0;
      globalVersion := 0;
      table := existing;
      transactions := map[];
      stores := map[];
      transactionReads := map[];
    }

    /** The identity's rows (none when it has no row). */
    function RowsOf(id: Identity): map<Key, Chain>
      reads this
    {
      if id in table then table[id] else map[]
    }

    /** The identity's pending map (a defaultdict: empty when absent). */
    function PendingOf(id: Identity): map<Key, Entry>
      reads this
    {
      if id in transactions then transactions[id] else map[]
    }

    /** The identity's staging deque (empty when absent). */
    function QueueOf(id: Identity): seq<(Key, Entry)>
      reads this
    {
      if id in stores then stores[id] else []
    }

    /** The identity's read cache (empty when absent). */
    function ReadsOf(id: Identity): Cache
      reads this
    {
      if id in transactionReads then transactionReads[id] else map[]
    }

    /** Every entry in the table is committed. */
    ghost predicate TableCommitted()
      reads this
    {
      TableChainsCommitted(table)
    }

    /** `commit`: append every pending record, marked committed, to its chain;
        then empty the pending map. The read cache is left as it is. */
    method Commit(id: Identity)
      modifies this`table, this`transactions
      ensures table == old(table)[id := CommitRows(old(RowsOf(id)), old(PendingOf(id)))]
      ensures transactions == old(transactions)[id := map[]]
      ensures old(TableCommitted()) ==> TableCommitted()
    {
      var rows := CommitLoop(RowsOf(id), PendingOf(id));
      if TableCommitted() {
        CommitKeepsChainsCommitted(RowsOf(id), PendingOf(id));
        ReplaceRowsKeepsCommitted(table, id, rows);
      }
      table := table[id := rows];
      transactions := transactions[id := map[]];
    }

    /** `abort`: empty the pending map; chains and read cache stay. */
    method Abort(id: Identity)
      modifies this`transactions
      ensures transactions == old(transactions)[id := map[]]
    {
      transactions := transactions[id := map[]];
    }

    /** `read`: resolve `key` under `level` against its row and the identity's
        read cache; only REPEATABLE_READ and SERIALIZABLE touch the cache. */
    method Read(id: Identity, key: Key, txVersion: int, level: IsolationLevel) returns (r: Option<Value>)
      modifies this`transactionReads
      ensures var res := ReadAt(ChainAt(RowsOf(id), key), old(ReadsOf(id)), key, txVersion, globalVersion, level);
              r == res.value && ReadsOf(id) == res.cache
      ensures forall other :: other != id ==> ReadsOf(other) == old(ReadsOf(other))
    {
      var rows := RowsOf(id);
      if key !in rows {
        return None;
      }
      var chain := rows[key];
      match level {
        case ReadUncommitted =>
          if |chain| > 0 && !chain[|chain| - 1].deleted {
            r := chain[|chain| - 1].value;
          } else {
            r := None;
          }
        case ReadCommitted =>
          var i := ScanNewest(chain, globalVersion);
          r := if i.Some? then chain[i.value].value else None;
        case RepeatableRead =>
          var cache := ReadsOf(id);
          transactionReads := transactionReads[id := cache];
          if key in cache {
            return cache[key];
          }
          var i := ScanNewest(chain, txVersion);
          if i.Some? {
            transactionReads := transactionReads[id := cache[key := chain[i.value].value]];
            r := chain[i.value].value;
          } else {
            r := None;
          }
        case Serializable =>
          var i := ScanNewest(chain, txVersion);
          if i.Some? {
            var cache := ReadsOf(id);
            if key !in cache {
              cache := cache[key := chain[i.value].value];
            }
            transactionReads := transactionReads[id := cache];
            r := cache[key];
          } else {
            r := None;
          }
      }
    }

    /** `write`: stage an uncommitted record with the caller's version,
        replacing any earlier pending entry for the key. */
    method Write(id: Identity, key: Key, value: Option<Value>, writeVersion: int)
      modifies this`transactions
      ensures transactions ==
        old(transactions)[id := old(PendingOf(id))[key := Record(VersionedData(value, writeVersion, false, false))]]
    {
      transactions := transactions[id := PendingOf(id)[key := Record(VersionedData(value, writeVersion, false, false))]];
    }

    /** `delete`: stage an uncommitted tombstone carrying the global version. */
    method Delete(id: Identity, key: Key)
      modifies this`transactions
      ensures transactions ==
        old(transactions)[id := old(PendingOf(id))[key := Record(VersionedData(None, globalVersion, false, true))]]
    {
      transactions := transactions[id := PendingOf(id)[key := Record(VersionedData(None, globalVersion, false, true))]];
    }

    /** `store`: push a pair onto the right end of the identity's deque. */
    method Store(id: Identity, key: Key, value: Entry)
      modifies this`stores
      ensures stores == old(stores)[id := old(QueueOf(id)) + [(key, value)]]
    {
      stores := stores[id := QueueOf(id) + [(key, value)]];
    }

    /** `offload_store`: pop pairs from the right end of the deque into the
        pending map until the deque is empty. */
    method OffloadStore(id: Identity)
      modifies this`stores, this`transactions
      ensures stores == old(stores)[id := []]
      ensures old(QueueOf(id)) == [] ==> transactions == old(transactions)
      ensures old(QueueOf(id)) != [] ==>
        transactions == old(transactions)[id := Drained(old(PendingOf(id)), old(QueueOf(id)))]
    {
      var queue := QueueOf(id);
      if queue != [] {
        var pending := Drain(PendingOf(id), queue);
        transactions := transactions[id := pending];
      }
      stores := stores[id := []];
    }

    /** `garbage_collector`: trim every chain of the identity longer than
        `maxVersions`; return how many were trimmed, or None when the identity
        has no row at all. */
    method GarbageCollector(id: Identity, maxVersions: int := DefaultMaxVersions) returns (r: Option<nat>)
      modifies this`table
      ensures old(RowsOf(id)) == map[] ==> r == None && table == old(table)
      ensures old(RowsOf(id)) != map[] ==>
        r == Some(|TrimmedKeys(old(RowsOf(id)), maxVersions)|) &&
        table == old(table)[id := Collect(old(RowsOf(id)), maxVersions)]
      ensures old(TableCommitted()) ==> TableCommitted()
    {
      var rows := RowsOf(id);
      if rows == map[] {
        return None;
      }
      var updates := TrimUpdates(rows, maxVersions);
      ApplyUpdates(rows, updates, maxVersions);
      if TableCommitted() {
        CollectKeepsChainsCommitted(rows, maxVersions);
        ReplaceRowsKeepsCommitted(table, id, rows + updates);
      }
      if updates != map[] {
        table := table[id := rows + updates];
      } else {
        UpdateWithSameValue(table, id);
      }
      r := Some(|updates|);
    }

    /** `register`: the first registration of an identity creates its pending
        map and an empty deque and counts it; any later one changes nothing. */
    method Register(id: Identity)
      modifies this`transactions, this`stores, this`count
      ensures id in transactions
      ensures id in old(transactions) ==>
        transactions == old(transactions) && stores == old(stores) && count == old(count)
      ensures id !in old(transactions) ==>
        transactions == old(transactions)[id := map[]] && stores == old(stores)[id := []] &&
        count == old(count) + 1
    {
      if id !in transactions {
        transactions := transactions[id := map[]];
        stores := stores[id := []];
        count := count + 1;
      }
    }
  }
}
