# Atomix: a model of its transaction engines

Atomix is a transactional key-value engine with per-identity keyspaces. This
project models its two engines in Dafny and proves properties of them.

- `atomix.py` is the multi-version engine (MVCC). Each (identity, key) row of
  its table holds a chain of `VersionedData` records, oldest first. Every
  identity has a pending-writes map, a read cache (`transaction_reads`) and a
  LIFO staging deque. Reads resolve a key under one of four isolation levels.
  Commit appends the pending records to their chains. Garbage collection trims
  long chains.
- `memory.py` is a single-version store. It holds a committed dictionary, one
  staged transaction and a staging deque.

Files:

- `base.dfy`: Option, Result, the Python exceptions raised, the key and value types.
- `staging.dfy`: the LIFO drain of a staging deque, used by both engines.
- `versions.dfy`: `VersionedData`, `to_dict`/`from_dict`, the newest-to-oldest
  visibility scan and Python's `s[-m:]`.
- `atomix.dfy`: the engine as the class `AtomixEngine.Atomix`, with the
  pure functions and lemmas its methods are proved against.
- `memory.dfy`: the single-version store as the class `MemoryStore.Atomix`.

The database table is the field `table: map<Identity, map<Key, Chain>>`.
The constructor takes the rows the table already holds. `global_version` is a
`const`, because the code assigns it only in `__init__`. Python's `None` is
`Option.None`. The pending map holds `Entry` values. An `Entry` is either a
`VersionedData` record or any other value. `offload_store` puts other values
there, and `commit`'s `isinstance` test skips them.

## Behaviour of the code that the model keeps

The code leaves out several mechanisms a reader might expect. The model does
the same.

- `write` and `delete` only stage a record. A chain gains entries only at
  commit. So READ_UNCOMMITTED does not see a staged write, and `abort` has
  nothing to take back from the chains (the `Write`, `Delete` and `Abort`
  frames leave `table` alone).
- `global_version` never advances. READ_COMMITTED therefore sees only entries
  with version 0 or below. The write–commit–read scenario with versions 1 and
  2 reads None both times (`ReadCommittedScenario`).
- The visibility scans of READ_COMMITTED, REPEATABLE_READ and SERIALIZABLE
  skip tombstones and keep searching older entries. So after a committed
  delete, READ_COMMITTED still returns the older value
  (`CommitOfHiddenEntry`). Only READ_UNCOMMITTED reads None when the tombstone
  is the last entry of the chain (`CommitVisibleToReadUncommitted`).
- Commit does not clear `transaction_reads`. SERIALIZABLE does no commit-time
  validation.
- A raw value put into the pending map by `offload_store` is never committed
  (`OffloadedPlainValueNotCommitted`).
- A read of a key that has no row returns None before the read cache is
  consulted, even at REPEATABLE_READ.
- `garbage_collector` keeps `versions[-max_versions:]`. With `max_versions = 0`
  that is the whole chain, yet every non-empty chain is counted as trimmed. A
  negative bound drops the oldest entries instead.
- `commit`, `abort`, `write`, `delete`, and `offload_store` with a non-empty
  deque, create the identity's pending map as a side effect (it is a
  `defaultdict`). A later `register` of that identity then changes nothing and
  does not count it.

## Model

| member | source | states |
|---|---|---|
| `Versions.Committed` | atomix.py:66-67 | marking an entry committed sets only the committed flag |
| `Versions.ToDict` | atomix.py:22-28 | the dictionary has exactly the four field names, each holding its field |
| `Versions.FromDict` | atomix.py:30-32 | succeeds exactly on dictionaries with no unknown key, with `value` and `version`, and with fields of the right kind; `committed`/`deleted` default to false; otherwise TypeError |
| `Versions.FromDictToDict` | atomix.py:22-32 | reading back what `to_dict` wrote gives the same record |
| `Versions.ToDictFromDict` | atomix.py:22-32 | a complete dictionary accepted by `from_dict` is the `to_dict` of its result |
| `Versions.NewestQualifying` | atomix.py:102-104 | the scan's stop position is a qualifying entry (committed, version ≤ bound, not deleted) with no qualifying entry after it; None only when no entry qualifies |
| `Versions.NewestQualifyingUnique` | atomix.py:102-104 | the newest qualifying position is always the one the scan returns |
| `Versions.ScanNewest` | atomix.py:111-115 | the reversed loop returns exactly the newest qualifying position |
| `Versions.AppendHiddenEntry` | atomix.py:101-105 | appending an entry the bound does not admit leaves the scan's answer unchanged |
| `Versions.SliceFromEnd` | atomix.py:158 | Python's `s[-m:]` is a suffix of `s` in the same order, of length min(m, len(s)) for m > 0, the whole of `s` for m = 0, and max(len(s) + m, 0) for m < 0 |
| `Staging.Drained` | atomix.py:139-142 | the dictionary after the drain holds exactly its old keys plus every key in the deque |
| `Staging.Drain` | atomix.py:140-142 | popping and assigning pair by pair until the deque is empty yields exactly `Drained` |
| `Staging.DrainedAt` | atomix.py:139-142 | draining the deque LIFO gives each stored key the value stored for it first; keys never stored keep their binding |
| `AtomixEngine.ReadAt` | atomix.py:83-123 | no row reads None and leaves the cache alone. READ_UNCOMMITTED reads the last entry unless it is a tombstone or the chain is empty. READ_COMMITTED reads the newest qualifying entry under the global version, or None, and never caches. REPEATABLE_READ answers a cached key from the cache; otherwise it caches and returns the newest qualifying entry under the transaction version, or returns None with the cache unchanged. SERIALIZABLE reads None with the cache unchanged when nothing qualifies, even for a cached key; otherwise it caches the first value only for an uncached key and returns the cached value |
| `AtomixEngine.RepeatableReadPins` | atomix.py:107-115 | once a REPEATABLE_READ read has cached a key, any later REPEATABLE_READ of it on an existing row returns the same value, whatever was committed in between |
| `AtomixEngine.SerializableVersusRepeatableRead` | atomix.py:107-123 | SERIALIZABLE and REPEATABLE_READ agree except on a cached key with no qualifying entry, where SERIALIZABLE reads None and REPEATABLE_READ the cached value |
| `AtomixEngine.CommitRows` | atomix.py:65-73 | after commit, each pending record, marked committed, is the new last entry of its key's chain (a new row if there was none); keys with plain values and all other rows are unchanged |
| `AtomixEngine.CommitRowsStepRecord` | atomix.py:65-73 | committing one more record appends it to its own chain only |
| `AtomixEngine.CommitRowsStepPlain` | atomix.py:66 | a pending value that is not a record changes nothing that commit writes |
| `AtomixEngine.CommitLoop` | atomix.py:65-73 | the loop over the pending map computes exactly the committed rows |
| `AtomixEngine.CommitKeepsChainsCommitted` | atomix.py:66-73 | commit only adds committed entries, so chains that were fully committed stay so |
| `AtomixEngine.CommitVisibleToReadUncommitted` | atomix.py:94-99 | after commit, READ_UNCOMMITTED reads the committed record's value, or None for a tombstone |
| `AtomixEngine.CommitOfHiddenEntry` | atomix.py:101-105 | committing a tombstone or an entry above the global version changes nothing READ_COMMITTED reads |
| `AtomixEngine.CommitOfVisibleEntry` | atomix.py:101-105 | committing an entry READ_COMMITTED may see makes it what READ_COMMITTED reads |
| `AtomixEngine.ReadCommittedScenario` | atomix.py:39 | with the global version at 0, committed versions 1 and 2 of a key are both invisible to READ_COMMITTED |
| `AtomixEngine.OffloadedPlainValueNotCommitted` | atomix.py:139-142 | a key whose first stored value is not a record is not written by the following commit |
| `AtomixEngine.TrimmedKeys` | atomix.py:157 | exactly the keys whose chain is longer than `max_versions` |
| `AtomixEngine.Trim` | atomix.py:157-159 | a chain longer than the bound becomes its suffix `versions[-max_versions:]`: the newest `max_versions` entries for a positive bound, the whole chain for 0, all but the oldest entries for a negative one; shorter chains are unchanged |
| `AtomixEngine.Collect` | atomix.py:154-159 | every row of the identity is trimmed; no row is added or removed |
| `AtomixEngine.TrimUpdates` | atomix.py:153-159 | the loop's updates are exactly the trimmed chains of the keys over the bound |
| `AtomixEngine.ApplyUpdates` | atomix.py:161-168 | writing the updates back over the rows gives the collected rows |
| `AtomixEngine.CollectIdempotent` | atomix.py:157-159 | with a bound ≥ 0 a second collection changes nothing; with a bound > 0 it trims no key |
| `AtomixEngine.CollectKeepsChainsCommitted` | atomix.py:157-168 | collection only drops entries, so fully committed chains stay so |
| `AtomixEngine.Atomix.constructor` | atomix.py:35-45 | count 0, global version 0, empty in-memory maps, the table as found |
| `AtomixEngine.Atomix.Commit` | atomix.py:62-75 | the identity's rows become the committed rows; its pending map becomes empty; the read cache is untouched; the table stays fully committed |
| `AtomixEngine.Atomix.Abort` | atomix.py:80-81 | only the identity's pending map changes, to empty |
| `AtomixEngine.Atomix.Read` | atomix.py:83-123 | the result and the identity's new read cache are those of `ReadAt` on its row; other identities' caches are unchanged |
| `AtomixEngine.Atomix.Write` | atomix.py:125-128 | the key's pending entry becomes an uncommitted, non-deleted record with the caller's version; nothing else changes |
| `AtomixEngine.Atomix.Delete` | atomix.py:130-133 | the key's pending entry becomes an uncommitted tombstone with value None and the global version |
| `AtomixEngine.Atomix.Store` | atomix.py:135-137 | the pair is appended to the right end of the identity's deque |
| `AtomixEngine.Atomix.OffloadStore` | atomix.py:139-142 | the deque ends empty; the pending map is the LIFO drain of the deque into it (via `Staging.Drain`), and is untouched when the deque was empty |
| `AtomixEngine.Atomix.GarbageCollector` | atomix.py:144-172 | None and no change when the identity has no row; otherwise the rows become the collected rows and the result is the number of keys over the bound |
| `AtomixEngine.Atomix.Register` | atomix.py:174-179 | the first registration adds an empty pending map and deque and increments the count by one; a repeated one changes nothing |
| `MemoryStore.Merge` | memory.py:15 | `data.update`: staged keys take their staged values (None for deletes), other keys keep theirs |
| `MemoryStore.Lookup` | memory.py:21-25 | a read inside a transaction succeeds exactly on the keys that the data would hold after a commit, and returns the value the key would then have; otherwise KeyError |
| `MemoryStore.ReadYourWrites` | memory.py:21-31 | a read after `write(k, v)` returns v, after `delete(k)` None; other keys read as before |
| `MemoryStore.CommitKeepsReads` | memory.py:13-25 | merging and emptying the transaction leaves every read's result as it was |
| `MemoryStore.OffloadReadsEarliest` | memory.py:40-43 | after an offload a stored key reads as the value stored for it first |
| `MemoryStore.OffloadKeepsUnstored` | memory.py:40-43 | after an offload a key never stored reads as before |
| `MemoryStore.Atomix.constructor` | memory.py:5-8 | empty data, no transaction and no deque yet |
| `MemoryStore.Atomix.StartTransaction` | memory.py:10-11 | the transaction becomes empty |
| `MemoryStore.Atomix.Commit` | memory.py:13-16 | data becomes the merge of data and the transaction, which becomes empty; AttributeError without a transaction |
| `MemoryStore.Atomix.Abort` | memory.py:18-19 | the transaction becomes empty and data is untouched; AttributeError without a transaction |
| `MemoryStore.Atomix.Read` | memory.py:21-25 | the staged value if staged, else the committed one, else KeyError; AttributeError without a transaction |
| `MemoryStore.Atomix.Write` | memory.py:27-28 | the key is staged with the value; AttributeError without a transaction |
| `MemoryStore.Atomix.Delete` | memory.py:30-31 | the key is staged with None; AttributeError without a transaction |
| `MemoryStore.Atomix.CreateStore` | memory.py:33-34 | the deque becomes empty |
| `MemoryStore.Atomix.Store` | memory.py:36-38 | the pair is appended to the right end of the deque; AttributeError without one |
| `MemoryStore.Atomix.OffloadStore` | memory.py:40-43 | the deque ends empty and the transaction is its LIFO drain into the old transaction; without a transaction the first pair is popped and lost before AttributeError |

## Left out

- The PostgreSQL connection, the SQL text, table creation, `conn.commit` and
  `__del__` (atomix.py:35-57, 181-183) are database I/O. The table is the map
  `table`. Each method is atomic, so a failed database write is not modelled.
- JSON encoding (atomix.py:73, 168) is not modelled. Chains hold records
  directly; `FromDictToDict` shows that the dictionary form loses nothing.
- `threading.Lock` and `threading.local` are not modelled. Every method runs
  atomically, and memory.py's thread-local slot is one transaction owned by
  the object.
- identity.py is not part of this model. It only forwards calls, and its
  `read` passes two arguments to a four-parameter method.
- version.py is not part of this model. It duplicates the record of atomix.py.
- `set_isolation_level`, `initiate` and `default_isolation_level`
  (atomix.py:44, 59-60, 77-78) are not modelled. Nothing reads the attributes,
  and `initiate` only builds the wrapper.
- Aliasing is not modelled. `commit` sets `committed = True` on the pending
  object itself. The model works on values, so another reference to that
  object would not see the change.
- Python's dynamic typing is narrowed. Values are strings or None, and
  versions are integers. An isolation level outside the four (for which `read`
  returns None) cannot be expressed.
- `Versions.FromDict`: rejects a field of the wrong kind (for example a string
  `version`), where Python would build the record anyway.
- `AtomixEngine.Atomix.Read`: states each identity's cache through `ReadsOf`.
  So it does not say whether an empty cache entry for the identity is created
  by the `defaultdict`; nothing can observe that.
- `AtomixEngine.Atomix.OffloadStore`: writes the deque and the pending map
  once, after the whole drain. The code pops and assigns pair by pair without
  taking the lock, so a concurrent caller could see a half-drained deque;
  concurrency is not modelled.
- `AtomixEngine.Atomix.Commit`: for an identity with no rows and no records
  pending, the table gains an empty row map for it, where the database gains
  nothing. `RowsOf` and `GarbageCollector` treat both as "no rows".
