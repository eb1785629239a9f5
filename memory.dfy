/** The single-version store of memory.py: a committed `data` dictionary, one
    staged transaction (the thread-local slot, owned here by the object) and a
    staging deque. The slot and the deque do not exist until
    `start_transaction` and `create_store` create them; using them before
    raises AttributeError. */
module MemoryStore {
  import opened Base
  import opened Staging

  /** A dictionary of keys to values; a delete stages None. */
  type Dict = map<Key, Option<Value>>

  /** `data.update(transaction)`: staged keys take their staged values, the
      other keys of `data` keep theirs, and no other key appears. */
  function Merge(data: Dict, staged: Dict): (r: Dict)
    ensures r.Keys == data.Keys + staged.Keys
    ensures forall k :: k in staged ==> r[k] == staged[k]
    ensures forall k :: k in data && k !in staged ==> r[k] == data[k]
  {
    data + staged
  }

  /** What `read` returns once a transaction exists: the staged value, else the
      committed one, else KeyError. Either way it is what the key would hold
      in `data` after a commit. */
  function Lookup(data: Dict, staged: Dict, key: Key): (r: Result<Option<Value>, PyError>)
    ensures r.Ok? <==> key in Merge(data, staged)
    ensures r.Ok? ==> r.value == Merge(data, staged)[key]
    ensures r.Err? ==> r.error == KeyError
  {
    if key in staged then Ok(staged[key])
    else if key in data then Ok(data[key])
    else Err(KeyError)
  }

  /** A read after a write (or, with None, a delete) of the key sees what was
      written; reads of other keys are unaffected. */
  lemma ReadYourWrites(data: Dict, staged: Dict, key: Key, value: Option<Value>)
    ensures Lookup(data, staged[key := value], key) == Ok(value)
    ensures forall other :: other != key ==>
      Lookup(data, staged[key := value], other) == Lookup(data, staged, other)
  {
  }

  /** Committing and emptying the transaction leaves every read as it was. */
  lemma CommitKeepsReads(data: Dict, staged: Dict, key: Key)
    ensures Lookup(Merge(data, staged), map[], key) == Lookup(data, staged, key)
  {
  }

  /** After an offload, a stored key reads as the value stored for it first. */
  lemma OffloadReadsEarliest(data: Dict, staged: Dict, queue: seq<(Key, Option<Value>)>, i: int)
    requires EarliestAt(queue, i)
    ensures Lookup(data, Drained(staged, queue), queue[i].0) == Ok(queue[i].1)
  {
    DrainedAt(staged, queue, queue[i].0);
  }

  /** After an offload, a key never stored reads as before. */
  lemma OffloadKeepsUnstored(data: Dict, staged: Dict, queue: seq<(Key, Option<Value>)>, key: Key)
    requires key !in StoredKeys(queue)
    ensures Lookup(data, Drained(staged, queue), key) == Lookup(data, staged, key)
  {
    DrainedAt(staged, queue, key);
  }

  /** The store object. */
  class Atomix {
    /** Committed values. */
    var data: Dict
    /** The transaction slot: None until `start_transaction`. */
    var transaction: Option<Dict>
    /** The staging deque, right end newest: None until `create_store`. */
    var store: Option<seq<(Key, Option<Value>)>>

    constructor ()
      ensures data == map[] && transaction == None && store == None
    {
      data := map[];
      transaction := None;
      store := None;
    }

    /** `start_transaction`: a fresh, empty transaction, discarding any
        staged one. */
    method StartTransaction()
      modifies this`transaction
      ensures transaction == Some(map[])
    {
      transaction := Some(map[]);
    }

    /** `commit`: merge the transaction into `data`, then empty it. */
    method Commit() returns (o: Outcome)
      modifies this`data, this`transaction
      ensures old(transaction).None? ==>
        o == Fail(AttributeError) && data == old(data) && transaction == old(transaction)
      ensures old(transaction).Some? ==>
        o == Pass && data == Merge(old(data), old(transaction).value) && transaction == Some(map[])
    {
      if transaction.None? {
        return Fail(AttributeError);
      }
      data := Merge(data, transaction.value);
      transaction := Some(map[]);
      o := Pass;
    }

    /** `abort`: empty the transaction; `data` is untouched. */
    method Abort() returns (o: Outcome)
      modifies this`transaction
      ensures old(transaction).None? ==> o == Fail(AttributeError) && transaction == old(transaction)
      ensures old(transaction).Some? ==> o == Pass && transaction == Some(map[])
    {
      if transaction.None? {
        return Fail(AttributeError);
      }
      transaction := Some(map[]);
      o := Pass;
    }

    /** `read`: the staged value if the key is staged, else the committed one;
        KeyError when it is in neither. */
    method Read(key: Key) returns (r: Result<Option<Value>, PyError>)
      ensures transaction.None? ==> r == Err(AttributeError)
      ensures transaction.Some? && key in transaction.value ==> r == Ok(transaction.value[key])
      ensures transaction.Some? && key !in transaction.value && key in data ==> r == Ok(data[key])
      ensures transaction.Some? && key !in transaction.value && key !in data ==> r == Err(KeyError)
      ensures transaction.Some? ==> r == Lookup(data, transaction.value, key)
    {
      if transaction.None? {
        return Err(AttributeError);
      }
      if key in transaction.value {
        return Ok(transaction.value[key]);
      }
      if key in data {
        return Ok(data[key]);
      }
      return Err(KeyError);
    }

    /** `write`: stage the value under the key. */
    method Write(key: Key, value: Option<Value>) returns (o: Outcome)
      modifies this`transaction
      ensures old(transaction).None? ==> o == Fail(AttributeError) && transaction == old(transaction)
      ensures old(transaction).Some? ==> o == Pass && transaction == Some(old(transaction).value[key := value])
    {
      if transaction.None? {
        return Fail(AttributeError);
      }
      transaction := Some(transaction.value[key := value]);
      o := Pass;
    }

    /** `delete`: stage None under the key. */
    method Delete(key: Key) returns (o: Outcome)
      modifies this`transaction
      ensures old(transaction).None? ==> o == Fail(AttributeError) && transaction == old(transaction)
      ensures old(transaction).Some? ==> o == Pass && transaction == Some(old(transaction).value[key := None])
    {
      if transaction.None? {
        return Fail(AttributeError);
      }
      transaction := Some(transaction.value[key := None]);
      o := Pass;
    }

    /** `create_store`: a fresh, empty deque, discarding any stored pairs. */
    method CreateStore()
      modifies this`store
      ensures store == Some([])
    {
      store := Some([]);
    }

    /** `store`: push a pair onto the right end of the deque. */
    method Store(key: Key, value: Option<Value>) returns (o: Outcome)
      modifies this`store
      ensures old(store).None? ==> o == Fail(AttributeError) && store == old(store)
      ensures old(store).Some? ==> o == Pass && store == Some(old(store).value + [(key, value)])
    {
      if store.None? {
        return Fail(AttributeError);
      }
      store := Some(store.value + [(key, value)]);
      o := Pass;
    }

    /** `offload_store`: pop pairs from the right end of the deque into the
        transaction until the deque is empty. Without a transaction the first
        pop has already happened when the assignment raises, so that pair is
        lost. */
    method OffloadStore() returns (o: Outcome)
      modifies this`store, this`transaction
      ensures old(store).None? ==>
        o == Fail(AttributeError) && store == old(store) && transaction == old(transaction)
      ensures old(store) == Some([]) ==> o == Pass && store == old(store) && transaction == old(transaction)
      ensures old(store).Some? && old(store).value != [] && old(transaction).None? ==>
        o == Fail(AttributeError) && transaction == old(transaction) &&
        store == Some(old(store).value[..|old(store).value| - 1])
      ensures old(store).Some? && old(store).value != [] && old(transaction).Some? ==>
        o == Pass && store == Some([]) &&
        transaction == Some(Drained(old(transaction).value, old(store).value))
    {
      if store.None? {
        return Fail(AttributeError);
      }
      o := Pass;
      while store.value != []
        invariant store.Some? && |store.value| <= |old(store).value|
        invariant store.value == old(store).value[..|store.value|]
        invariant store == old(store) ==> transaction == old(transaction)
        invariant store != old(store) ==> old(transaction).Some? && transaction.Some?
        invariant transaction.Some? ==>
          Drained(transaction.value, store.value) == Drained(old(transaction).value, old(store).value)
        decreases |store.value|
      {
        var n := |store.value| - 1;
        var pair := store.value[n];
        store := Some(store.value[..n]);
        if transaction.None? {
          return Fail(AttributeError);
        }
        transaction := Some(transaction.value[pair.0 := pair.1]);
      }
    }
  }
}
