/** The ordered key/value store the driver runs on: a committed map, transactions that
    overlay it with pending writes, and iterators over a transaction's view. */
module BadgerStore {
  import opened Wrappers
  import opened Keys

  /** A stored value together with its user meta byte (is it a bucket marker?). */
  datatype Item = Item(isBucket: bool, value: seq<byte>)

  type Store = map<Key, Item>

  /** Pending writes; None is a pending deletion. */
  type Writes = map<Key, Option<Item>>

  datatype Failure = EmptyKey | KeyNotFound | ReadOnlyTxn | DiscardedTxn | TxnTooBig | Conflict

  /** The store seen through a set of pending writes. */
  function Apply(base: Store, w: Writes): Store {
    map k | k in base.Keys + w.Keys && (k in w ==> w[k].Some?) :: if k in w then w[k].value else base[k]
  }

  lemma ApplyDelete(base: Store, w: Writes, k: Key)
    ensures Apply(base, w[k := None]) == Apply(base, w) - {k}
  {
  }

  class Database {
    var committed: Store
    // how many transactions have made writes durable
    var commits: nat
    var closed: bool
    // the number of writes at which a transaction answers TxnTooBig
    const maxBatch: nat

    constructor (maxBatch: nat)
      ensures committed == map[] && commits == 0 && !closed && this.maxBatch == maxBatch
    {
      committed, commits, closed, this.maxBatch := map[], 0, false, maxBatch;
    }
  }

  class Txn {
    const db: Database
    var snapshot: Store
    var readTs: nat
    var pending: Writes
    var count: nat
    var update: bool
    var discarded: bool

    constructor (db: Database, update: bool)
      ensures this.db == db && this.update == update && Fresh()
    {
      this.db, this.update := db, update;
      snapshot, readTs, pending, count, discarded := db.committed, db.commits, map[], 0, false;
    }

    /** A transaction as it is right after it was opened. */
    ghost predicate Fresh()
      reads this, db
    {
      snapshot == db.committed && readTs == db.commits && pending == map[] && count == 0 && !discarded
    }

    function View(): Store
      reads this
    {
      Apply(snapshot, pending)
    }

    /** The failure that reading k meets, if any. */
    function GetFailure(k: Key): Option<Failure>
      reads this
    {
      if k == [] then Some(EmptyKey)
      else if discarded then Some(DiscardedTxn)
      else if k !in View() then Some(KeyNotFound)
      else None
    }

    /** The failure that writing k meets, if any. */
    function WriteFailure(k: Key): Option<Failure>
      reads this
    {
      if !update then Some(ReadOnlyTxn)
      else if discarded then Some(DiscardedTxn)
      else if k == [] then Some(EmptyKey)
      else if count + 1 >= db.maxBatch then Some(TxnTooBig)
      else None
    }

    method Modify(k: Key, change: Option<Item>) returns (e: Option<Failure>)
      modifies this
      ensures e == old(WriteFailure(k))
      ensures e.Some? ==> unchanged(this)
      ensures e.None? ==> pending == old(pending)[k := change] && count == old(count) + 1
      ensures snapshot == old(snapshot) && readTs == old(readTs)
      ensures update == old(update) && discarded == old(discarded)
      ensures e.None? ==> View() == match change
        case Some(item) => old(View())[k := item]
        case None => old(View()) - {k}
    {
      e := WriteFailure(k);
      if e.None? {
        pending := pending[k := change];
        count := count + 1;
      }
    }

    /** Can committing fail because another transaction has committed in the meantime? */
    predicate MayConflict()
      reads this, db
    {
      pending != map[] && readTs < db.commits
    }

    /** Closes the transaction and makes its pending writes durable, unless one of its reads conflicts
        with another transaction's commit. */
    method Commit() returns (e: Option<Failure>)
      modifies this, db
      ensures old(discarded) <==> e == Some(DiscardedTxn)
      ensures e == Some(DiscardedTxn) ==> unchanged(this) && unchanged(db)
      ensures e.Some? && e != Some(DiscardedTxn) ==>
        e == Some(Conflict) && old(MayConflict()) && unchanged(db) && discarded
      ensures e.None? ==> db.committed == Apply(old(db.committed), old(pending)) && discarded
      ensures db.closed == old(db.closed) && update == old(update)
      ensures snapshot == old(snapshot) && pending == old(pending) && readTs == old(readTs)
    {
      if discarded {
        return Some(DiscardedTxn);
      }
      discarded := true;
      if pending == map[] {
        return None;
      }
      if readTs < db.commits {
        var conflict := *;
        if conflict {
          return Some(Conflict);
        }
      }
      db.committed, db.commits := Apply(db.committed, pending), db.commits + 1;
      e := None;
    }

    method Discard()
      modifies this
      ensures discarded && snapshot == old(snapshot) && readTs == old(readTs)
      ensures pending == old(pending) && update == old(update) && count == old(count)
    {
      discarded := true;
    }

    /** Overwrites this transaction in place with a newly opened writable one. */
    method Renew()
      modifies this
      ensures Fresh() && update
    {
      snapshot, readTs, pending, count, update, discarded := db.committed, db.commits, map[], 0, true, false;
    }
  }

  /** An iterator is a position in the ascending key sequence of a fixed view. */
  class Iterator {
    const items: Store
    const keys: seq<Key>
    var pos: nat

    ghost predicate Valid()
      reads this
    {
      keys == Sorted(items.Keys) && pos <= |keys|
    }

    constructor (items: Store)
      ensures Valid() && this.items == items && pos == 0
    {
      this.items, keys, pos := items, Sorted(items.Keys), 0;
    }

    predicate ValidForPrefix(prefix: Key)
      requires Valid()
      reads this
    {
      pos < |keys| && prefix <= keys[pos]
    }

    method Rewind()
      requires Valid()
      modifies this
      ensures Valid() && pos == 0
    {
      pos := 0;
    }

    /** Moves to the first key that is not below k. */
    method Seek(k: Key)
      requires Valid()
      modifies this
      ensures Valid() && pos == LowerBound(keys, k)
    {
      pos := 0;
      while pos < |keys| && Less(keys[pos], k)
        invariant pos <= |keys|
        invariant pos + LowerBound(keys[pos..], k) == LowerBound(keys, k)
      {
        pos := pos + 1;
      }
    }

    method Next()
      requires Valid()
      modifies this
      ensures Valid() && pos == if old(pos) < |keys| then old(pos) + 1 else old(pos)
    {
      if pos < |keys| {
        pos := pos + 1;
      }
    }
  }

  /** The number of leading keys below k. */
  function LowerBound(ks: seq<Key>, k: Key): (n: nat)
    ensures n <= |ks|
    ensures forall i | 0 <= i < n :: Less(ks[i], k)
    ensures n < |ks| ==> !Less(ks[n], k)
  {
    if ks == [] || !Less(ks[0], k) then 0 else 1 + LowerBound(ks[1..], k)
  }
}
