/** The driver itself: transactions, buckets and their operations on the ordered store. */
module Buckets {
  import opened Wrappers
  import opened Keys
  import opened BadgerStore
  import opened BucketLayout
  import opened BucketOps

  function ConvertErr(e: Failure): ErrorKind {
    match e
    case KeyNotFound => NotExist
    case Conflict => IO
    case _ => Invalid
  }

  /** The ownership invariant of everything a transaction can see or commit. */
  ghost predicate Owned(txn: Txn)
    reads txn, txn.db
  {
    WellOwned(txn.snapshot) && WellOwned(txn.db.committed) && WritesOwned(txn.pending)
  }

  /** What a commit now would make durable. */
  function Durable(txn: Txn): Store
    reads txn, txn.db
  {
    Apply(txn.db.committed, txn.pending)
  }

  /** The durable store, and the transaction's own view. */
  ghost function StateOf(txn: Txn): State<Store>
    reads txn, txn.db
  {
    State(txn.db.committed, txn.View())
  }

  /** The transaction can take one more write of a non-empty key. */
  predicate Accepts(txn: Txn)
    reads txn
  {
    Room(txn) > 0
  }

  class Transaction {
    const db: Database
    const badgerTx: Txn
    const writable: bool
    var buckets: seq<Bucket>
    var isDiscarded: bool

    constructor (db: Database, writable: bool)
      ensures fresh(badgerTx) && badgerTx.Fresh() && badgerTx.db == db && badgerTx.update == writable
      ensures this.db == db && this.writable == writable && buckets == [] && !isDiscarded
    {
      this.db, this.writable, buckets, isDiscarded := db, writable, [], false;
      badgerTx := new Txn(db, writable);
    }

    method ReadWriteBucket(key: Key) returns (b: Bucket?)
      requires badgerTx.db == db
      modifies this`buckets
      ensures b != null <==> !db.closed && !badgerTx.discarded && FlatOpen(badgerTx.View(), key) == Opened
      ensures b != null ==> b.prefix == key && b.txn == badgerTx && b.dbTransaction == this
      ensures buckets == if b == null then old(buckets) else old(buckets) + [b]
    {
      b := null;
      if db.closed {
        return;
      }
      if badgerTx.GetFailure(key).Some? || !badgerTx.View()[key].isBucket {
        return;
      }
      b := new Bucket(key, badgerTx, this);
      buckets := buckets + [b];
    }

    method CreateTopLevelBucket(key: Key) returns (b: Bucket?, e: Option<ErrorKind>)
      requires Owned(badgerTx) && badgerTx.db == db
      modifies this`buckets, badgerTx
      ensures Owned(badgerTx)
      ensures b == null <==> e.Some?
      ensures db.closed || old(badgerTx.discarded) ==> e == Some(Invalid)
      ensures key !in old(badgerTx.View()) && !old(Accepts(badgerTx)) ==> e == Some(Invalid)
      ensures !db.closed && !old(badgerTx.discarded) &&
              (key == [] || key in old(badgerTx.View()) || old(Accepts(badgerTx))) ==>
        var (view, reply) := FlatCreateTop(old(badgerTx.View()), key);
        badgerTx.View() == view && (if e.Some? then reply == Failed(e.value) else reply == Opened)
      ensures e.Some? ==> unchanged(badgerTx)
      ensures b != null ==> b.prefix == key && b.txn == badgerTx && b.dbTransaction == this
      ensures buckets == if b == null then old(buckets) else old(buckets) + [b]
    {
      if db.closed {
        return null, Some(Invalid);
      }
      var failure := badgerTx.GetFailure(key);
      if failure == Some(KeyNotFound) {
        WritesAreOwned(key, [], []);
        failure := badgerTx.Modify(key, Some(Marker(|key|)));
        if failure.Some? {
          return null, Some(ConvertErr(failure.value));
        }
      } else if failure.Some? {
        return null, Some(ConvertErr(failure.value));
      } else if !badgerTx.View()[key].isBucket {
        return null, Some(Invalid);
      }
      b := new Bucket(key, badgerTx, this);
      e := None;
      buckets := buckets + [b];
    }

    /** Deletes the marker, then every direct entry the iterator over the view finds. Failed deletions
        go unnoticed, so the bucket is gone exactly if the transaction had room for all of them. */
    method DeleteTopLevelBucket(key: Key) returns (e: Option<ErrorKind>)
      requires Owned(badgerTx) && badgerTx.db == db
      modifies this`buckets, badgerTx
      ensures Owned(badgerTx)
      ensures db.closed || old(badgerTx.discarded) ==> e == Some(Invalid)
      ensures e.Some? ==> unchanged(badgerTx) && buckets == old(buckets)
      ensures !db.closed && !old(badgerTx.discarded) ==> match FlatDeleteTop(old(badgerTx.View()), key).1
        case Failed(kind) => e == Some(kind)
        case _ => e == None
      ensures e == None ==>
        (badgerTx.View() == FlatDeleteTop(old(badgerTx.View()), key).0) ==
        (1 + |DirectKeys(old(badgerTx.View()), key)| <= old(Room(badgerTx)))
      ensures e == None ==> buckets == WithoutFirst(old(buckets), key)
    {
      if db.closed {
        return Some(Invalid);
      }
      var failure := badgerTx.GetFailure(key);
      if failure.Some? {
        return Some(ConvertErr(failure.value));
      }
      if !badgerTx.View()[key].isBucket {
        return Some(Invalid);
      }
      MarkerFirst(badgerTx.View(), key);
      DeleteQuietly(key);
      DeleteEntries(key);
      ForgetBucket(key);
      e := None;
    }

    /** Deletes the direct entries that an iterator over the view finds; all of them go exactly if the
        transaction has room for all. */
    method DeleteEntries(key: Key)
      requires Owned(badgerTx) && !badgerTx.discarded
      requires key != [] && (key in badgerTx.View() ==> Room(badgerTx) == 0)
      modifies badgerTx
      ensures Owned(badgerTx)
      ensures badgerTx.View() == old(badgerTx.View()) - DirectKeys(old(badgerTx.View()), key)
          <==> |DirectKeys(old(badgerTx.View()), key)| <= old(Room(badgerTx))
      ensures key in badgerTx.View() <==> key in old(badgerTx.View())
    {
      ghost var m, cap := badgerTx.View(), Room(badgerTx);
      ghost var left, room := m, cap;
      ApplyOwned(badgerTx.snapshot, badgerTx.pending);
      var it := new Iterator(badgerTx.View());
      it.Seek(key);
      ghost var lo := it.pos;
      while it.ValidForPrefix(key)
        invariant it.Valid() && lo <= it.pos
        invariant Owned(badgerTx) && !badgerTx.discarded
        invariant badgerTx.View() == left && Room(badgerTx) == room
        invariant SweptTo(m, it.keys, lo, it.pos, key, cap, left, room)
        decreases |it.keys| - it.pos
      {
        var k := it.keys[it.pos];
        MetStep(m, it.keys, lo, it.pos, key);
        left, room := SweepOne(k, it.items[k], key, m, it.keys, lo, it.pos, cap, left, room);
        assert SweptTo(m, it.keys, lo, it.pos + 1, key, cap, left, room);
        it.Next();
      }
      TakenAll(m, it.keys, it.pos, key, cap);
    }

    /** Deletes k, the key under the scan, if the bucket owns it and there is still room. */
    method SweepOne(k: Key, item: Item, key: Key, ghost m: Store, ghost ks: seq<Key>, ghost lo: nat, ghost pos: nat,
                    ghost cap: nat, ghost left: Store, ghost room: nat)
      returns (ghost left': Store, ghost room': nat)
      requires Owned(badgerTx) && !badgerTx.discarded
      requires ks == Sorted(m.Keys) && lo <= pos < |ks| && k == ks[pos] && k in m && item == m[k]
      requires k != [] && ItemOwned(k, item) && (k == key ==> cap == 0)
      requires badgerTx.View() == left && Room(badgerTx) == room
      requires SweptTo(m, ks, lo, pos, key, cap, left, room)
      modifies badgerTx
      ensures Owned(badgerTx) && !badgerTx.discarded
      ensures badgerTx.View() == left' && Room(badgerTx) == room'
      ensures SweptTo(m, ks, lo, pos + 1, key, cap, left', room')
    {
      TakenStep(m, ks, lo, pos, key, cap);
      left', room' := left, room;
      if Owner(k, item) == key {
        DeleteQuietly(k);
        if room > 0 {
          left', room' := left - {k}, room - 1;
        }
      }
    }

    /** Deletes k if the transaction takes the write, and does not say whether it did. */
    method DeleteQuietly(k: Key)
      requires Owned(badgerTx) && !badgerTx.discarded && k != []
      modifies badgerTx
      ensures Owned(badgerTx) && !badgerTx.discarded
      ensures old(Room(badgerTx)) == 0 ==> Room(badgerTx) == 0 && badgerTx.View() == old(badgerTx.View())
      ensures old(Room(badgerTx)) > 0 ==>
        Room(badgerTx) == old(Room(badgerTx)) - 1 && badgerTx.View() == old(badgerTx.View()) - {k}
    {
      var _ := badgerTx.Modify(k, None);
    }

    /** Drops the first handle with this prefix from the list of open buckets. */
    method ForgetBucket(key: Key)
      modifies this`buckets
      ensures buckets == WithoutFirst(old(buckets), key)
    {
      var i := 0;
      while i < |buckets|
        invariant i <= |buckets| && buckets == old(buckets)
        invariant WithoutFirst(buckets, key) == buckets[..i] + WithoutFirst(buckets[i..], key)
      {
        if buckets[i].prefix == key {
          buckets := buckets[..i] + buckets[i + 1..];
          return;
        }
        i := i + 1;
      }
    }

    method Commit() returns (e: Option<ErrorKind>)
      requires Owned(badgerTx) && badgerTx.db == db
      modifies badgerTx, db
      ensures Owned(badgerTx)
      ensures db.closed || old(badgerTx.discarded) <==> e == Some(Invalid)
      ensures e == Some(Invalid) ==> unchanged(db) && unchanged(badgerTx)
      ensures e.Some? && e != Some(Invalid) ==>
        e == Some(IO) && old(badgerTx.MayConflict()) && unchanged(db) && badgerTx.discarded
      ensures e.None? ==> db.committed == Apply(old(db.committed), old(badgerTx.pending)) && badgerTx.discarded
      ensures db.closed == old(db.closed)
    {
      if db.closed {
        return Some(Invalid);
      }
      ApplyOwned(db.committed, badgerTx.pending);
      var failure := badgerTx.Commit();
      e := if failure.Some? then Some(ConvertErr(failure.value)) else None;
    }

    method Rollback() returns (e: Option<ErrorKind>)
      requires badgerTx.db == db
      modifies this`isDiscarded, badgerTx
      ensures e.None? <==> !db.closed && !old(isDiscarded)
      ensures e.None? ==> badgerTx.discarded && isDiscarded
      ensures e.Some? ==> e == Some(Invalid) && unchanged(this) && unchanged(badgerTx)
      ensures db.committed == old(db.committed)
    {
      if db.closed || isDiscarded {
        return Some(Invalid);
      }
      badgerTx.Discard();
      isDiscarded := true;
      e := None;
    }
  }

  /** How many more writes the transaction takes. */
  function Room(txn: Txn): nat
    reads txn
  {
    if txn.update && !txn.discarded && txn.count + 1 < txn.db.maxBatch then txn.db.maxBatch - 1 - txn.count else 0
  }

  /** The scan of m's keys ks[lo..pos] has deleted as many of the bucket's entries as there was room for. */
  ghost predicate SweptTo(m: Store, ks: seq<Key>, lo: nat, pos: nat, key: Key, cap: nat, left: Store, room: nat)
    requires lo <= pos <= |ks|
  {
    var taken := Taken(m, ks, lo, pos, key, cap);
    left == m - taken && |taken| <= cap && room == cap - |taken|
  }

  /** The visitor failed on none of the entries. */
  predicate Passed(fails: Pair -> bool, visited: seq<Pair>) {
    forall i | 0 <= i < |visited| :: !fails(visited[i])
  }

  /** The visitor failed on the last of the entries and on none before. */
  predicate Stopped(fails: Pair -> bool, visited: seq<Pair>) {
    visited != [] && fails(visited[|visited| - 1]) && Passed(fails, visited[..|visited| - 1])
  }

  function WithoutFirst(bs: seq<Bucket>, prefix: Key): seq<Bucket> {
    if bs == [] then [] else if bs[0].prefix == prefix then bs[1..] else [bs[0]] + WithoutFirst(bs[1..], prefix)
  }

  /** The first handle with the prefix is taken out, and nothing else. */
  lemma {:induction false} WithoutFirstAt(bs: seq<Bucket>, prefix: Key, i: nat)
    requires i <= |bs| && (i < |bs| ==> bs[i].prefix == prefix)
    requires forall j | 0 <= j < i :: bs[j].prefix != prefix
    ensures WithoutFirst(bs, prefix) == if i == |bs| then bs else bs[..i] + bs[i + 1..]
  {
    if i > 0 {
      WithoutFirstAt(bs[1..], prefix, i - 1);
      assert bs == [bs[0]] + bs[1..];
    }
  }

  /** Deleting the marker before its entries comes to the same. */
  lemma MarkerFirst(m: Store, key: Key)
    ensures DirectKeys(m - {key}, key) == DirectKeys(m, key)
    ensures m - {key} - DirectKeys(m, key) == m - DirectKeys(m, key) - {key}
  {
  }

  class Bucket {
    const prefix: Key
    const txn: Txn
    const dbTransaction: Transaction
    var buckets: seq<Bucket>

    constructor (prefix: Key, txn: Txn, dbTransaction: Transaction)
      ensures this.prefix == prefix && this.txn == txn && this.dbTransaction == dbTransaction && buckets == []
    {
      this.prefix, this.txn, this.dbTransaction, buckets := prefix, txn, dbTransaction, [];
    }

    /** Creates or opens the nested bucket key. A key that cannot be read for any reason counts as absent. */
    method CreateBucket(key: Key, errorIfExists: bool) returns (b: Bucket?, e: Option<ErrorKind>)
      requires Owned(txn) && dbTransaction.db == txn.db
      modifies this`buckets, txn
      ensures Owned(txn)
      ensures b == null <==> e.Some?
      ensures txn.db.closed || old(txn.discarded) ==> e == Some(Invalid)
      ensures prefix + key !in old(txn.View()) && !old(Accepts(txn)) ==> e == Some(Invalid)
      ensures !txn.db.closed && !old(txn.discarded) && (prefix + key in old(txn.View()) || old(Accepts(txn))) ==>
        var (view, reply) := FlatCreateNested(old(txn.View()), prefix, key, errorIfExists);
        txn.View() == view && (if e.Some? then reply == Failed(e.value) else reply == Opened)
      ensures e.Some? ==> unchanged(txn)
      ensures b != null ==> b.prefix == prefix + key && b.txn == txn && b.dbTransaction == dbTransaction
      ensures buckets == if b == null then old(buckets) else old(buckets) + [b]
    {
      if txn.db.closed || key == [] || |key| > MAX_KEY_SIZE {
        return null, Some(Invalid);
      }
      var k := prefix + key;
      if txn.GetFailure(k).Some? {
        WritesAreOwned(prefix, key, []);
        var failure := txn.Modify(k, Some(Marker(|prefix|)));
        if failure.Some? {
          return null, Some(ConvertErr(failure.value));
        }
      } else if !txn.View()[k].isBucket {
        return null, Some(Invalid);
      } else if errorIfExists {
        return null, Some(Exist);
      }
      b := new Bucket(k, txn, dbTransaction);
      e := None;
      buckets := buckets + [b];
    }

    method NestedReadWriteBucket(key: Key) returns (b: Bucket?)
      requires dbTransaction.db == txn.db
      modifies dbTransaction`buckets
      ensures b != null <==>
        !txn.db.closed && !txn.discarded && FlatOpenNested(txn.View(), prefix, key) == Opened
      ensures b != null ==> b.prefix == prefix + key && b.txn == txn && b.dbTransaction == dbTransaction
      ensures dbTransaction.buckets ==
        if b == null then old(dbTransaction.buckets) else old(dbTransaction.buckets) + [b]
    {
      b := null;
      if txn.db.closed || |key| > MAX_KEY_SIZE {
        return;
      }
      var k := prefix + key;
      if txn.GetFailure(k).Some? || !txn.View()[k].isBucket {
        return;
      }
      b := new Bucket(k, txn, dbTransaction);
      dbTransaction.buckets := dbTransaction.buckets + [b];
    }

    method Get(key: Key) returns (value: Option<seq<byte>>)
      requires Owned(txn) && dbTransaction.db == txn.db
      ensures !txn.db.closed && !txn.discarded ==>
        match FlatGet(txn.View(), prefix, key) case Found(v) => value == Some(v) case _ => value == None
      ensures txn.db.closed || txn.discarded ==> value == None
    {
      ApplyOwned(txn.snapshot, txn.pending);
      if txn.db.closed || key == [] || |key| > MAX_KEY_SIZE || txn.GetFailure(prefix + key).Some? {
        return None;
      }
      var item := txn.View()[prefix + key];
      value := Some(item.value[1..]);
    }

    method Put(key: Key, value: seq<byte>) returns (e: Option<ErrorKind>)
      requires Owned(txn) && dbTransaction.db == txn.db
      modifies txn
      ensures Owned(txn)
      ensures txn.db.closed ==> e == Some(Invalid)
      ensures !txn.db.closed && old(Accepts(txn)) ==>
        var (view, reply) := FlatPut(old(txn.View()), prefix, key, value);
        txn.View() == view && (if e.Some? then reply == Failed(e.value) else reply == Done)
      ensures !old(Accepts(txn)) ==> e == Some(Invalid)
      ensures e.Some? ==> unchanged(txn)
    {
      if txn.db.closed || key == [] || |key| > MAX_KEY_SIZE {
        return Some(Invalid);
      }
      WritesAreOwned(prefix, key, value);
      var failure := txn.Modify(prefix + key, Some(Leaf(value, |prefix|)));
      e := if failure.Some? then Some(ConvertErr(failure.value)) else None;
    }

    method Delete(key: Key) returns (e: Option<ErrorKind>)
      requires Owned(txn) && dbTransaction.db == txn.db
      modifies txn
      ensures Owned(txn)
      ensures txn.db.closed ==> e == Some(Invalid)
      ensures !txn.db.closed && old(Accepts(txn)) ==>
        var (view, reply) := FlatDelete(old(txn.View()), prefix, key);
        txn.View() == view && (if e.Some? then reply == Failed(e.value) else reply == Done)
      ensures key != [] && !old(Accepts(txn)) ==> e == Some(Invalid)
      ensures e.Some? ==> unchanged(txn)
    {
      if txn.db.closed {
        return Some(Invalid);
      }
      if key == [] {
        return None;
      }
      if |key| > MAX_KEY_SIZE {
        return Some(Invalid);
      }
      var failure := txn.Modify(prefix + key, None);
      e := if failure.Some? then Some(ConvertErr(failure.value)) else None;
    }

    /** Visits the bucket's entries in order until the visitor fails. */
    method ForEach(fails: Pair -> bool) returns (visited: seq<Pair>, ok: bool)
      requires Owned(txn) && dbTransaction.db == txn.db && !txn.discarded
      ensures txn.db.closed ==> visited == [] && !ok
      ensures visited <= Listing(txn.View(), prefix)
      ensures !txn.db.closed && ok ==> visited == Listing(txn.View(), prefix) && Passed(fails, visited)
      ensures !txn.db.closed && !ok ==> Stopped(fails, visited)
      ensures InByteOrder(visited)
    {
      ListingInByteOrder(txn.View(), prefix);
      if txn.db.closed {
        return [], false;
      }
      ApplyOwned(txn.snapshot, txn.pending);
      var it := new Iterator(txn.View());
      it.Rewind();
      visited, ok := VisitAll(it, fails);
    }

    /** The scan of ForEach. */
    method VisitAll(it: Iterator, fails: Pair -> bool) returns (visited: seq<Pair>, ok: bool)
      requires it.Valid() && WellOwned(it.items)
      modifies it
      ensures visited <= Listing(it.items, prefix)
      ensures ok ==> visited == Listing(it.items, prefix) && Passed(fails, visited)
      ensures !ok ==> Stopped(fails, visited)
    {
      visited, ok := [], true;
      it.Seek(prefix);
      ghost var lo := it.pos;
      while it.ValidForPrefix(prefix)
        invariant it.Valid() && lo <= it.pos && ok
        invariant visited == Seen(it.items, it.keys, lo, it.pos, prefix)
        invariant Passed(fails, visited)
        decreases |it.keys| - it.pos
      {
        var k := it.keys[it.pos];
        MetStep(it.items, it.keys, lo, it.pos, prefix);
        visited, ok := Visit(k, it.items[k], fails, visited);
        assert visited == Seen(it.items, it.keys, lo, it.pos + 1, prefix);
        if !ok {
          SeenAll(it.items, it.keys, it.pos + 1, prefix);
          return;
        }
        it.Next();
      }
      SeenAll(it.items, it.keys, it.pos, prefix);
    }

    /** Shows one key of the scan to the visitor if the bucket owns it. */
    method Visit(k: Key, item: Item, fails: Pair -> bool, visited: seq<Pair>)
      returns (visited': seq<Pair>, ok: bool)
      requires ItemOwned(k, item) && Passed(fails, visited)
      ensures visited' == visited + if k != prefix && Owner(k, item) == prefix then [PairOf(k, item)] else []
      ensures if ok then Passed(fails, visited') else Stopped(fails, visited')
    {
      visited', ok := visited, true;
      if k != prefix && Owner(k, item) == prefix {
        visited' := visited + [PairOf(k, item)];
        ok := !fails(PairOf(k, item));
        assert visited'[..|visited|] == visited;
      }
    }

    /** A missing key is refused; an empty one addresses the bucket itself. */
    method DeleteNestedBucket(key: Option<Key>) returns (e: Option<ErrorKind>)
      requires Owned(txn) && dbTransaction.db == txn.db && 2 <= txn.db.maxBatch
      requires dbTransaction.writable ==> txn.update
      modifies txn, txn.db
      ensures Owned(txn) && txn.db.closed == old(txn.db.closed)
      ensures key == None || !dbTransaction.writable || txn.db.closed || old(txn.discarded) ==> e == Some(Invalid)
      ensures key.Some? && dbTransaction.writable && !txn.db.closed && !old(txn.discarded) ==>
        Dropped(old(StateOf(txn)), key.value, e, old(txn.readTs < txn.db.commits))
      ensures e.Some? ==> unchanged(txn.db) && (e == Some(IO) || unchanged(txn))
      ensures e == Some(IO) ==> txn.discarded
      ensures e == None ==>
        && txn.db.committed == old(Durable(txn)) - DirectKeys(old(txn.db.committed), prefix + key.value)
        && txn.View() == txn.db.committed - {prefix + key.value}
        && txn.snapshot == txn.db.committed && txn.update && !txn.discarded
    {
      if key == None || txn.db.closed {
        return Some(Invalid);
      }
      e := DropBucket(key.value);
    }

    /** The answer of a drop is that of the flat store, or a conflict where there can be one. */
    ghost predicate Dropped(s: State<Store>, key: Key, e: Option<ErrorKind>, mayConflict: bool) {
      match FlatDrop(s, prefix, key).1
      case Failed(kind) => e == Some(kind)
      case _ => e == None || (e == Some(IO) && mayConflict)
    }

    /** Deletes the nested bucket key: its direct entries are deleted as a scan of the durable store
        finds them, committing whenever the transaction is full, and then all of that is committed. */
    method DropBucket(key: Key) returns (e: Option<ErrorKind>)
      requires Owned(txn) && dbTransaction.db == txn.db && !txn.db.closed && 2 <= txn.db.maxBatch
      requires dbTransaction.writable ==> txn.update
      modifies txn, txn.db
      ensures Owned(txn) && txn.db.closed == old(txn.db.closed)
      ensures !dbTransaction.writable || old(txn.discarded) ==> e == Some(Invalid)
      ensures dbTransaction.writable && !old(txn.discarded) ==>
        Dropped(old(StateOf(txn)), key, e, old(txn.readTs < txn.db.commits))
      ensures e.Some? ==> unchanged(txn.db) && (e == Some(IO) || unchanged(txn))
      ensures e == Some(IO) ==> txn.discarded
      ensures e == None ==>
        && txn.db.committed == old(Durable(txn)) - DirectKeys(old(txn.db.committed), prefix + key)
        && txn.View() == txn.db.committed - {prefix + key}
        && txn.snapshot == txn.db.committed && txn.update && !txn.discarded
      ensures e == None && old(txn.snapshot == txn.db.committed) ==>
        StateOf(txn) == FlatDrop(old(StateOf(txn)), prefix, key).0
    {
      if !dbTransaction.writable || |key| > MAX_KEY_SIZE {
        return Some(Invalid);
      }
      var target := prefix + key;
      var failure := txn.GetFailure(target);
      if failure.Some? {
        return Some(ConvertErr(failure.value));
      }
      if !txn.View()[target].isBucket {
        return Some(Invalid);
      }
      failure := DropEntries(target);
      if failure == None {
        failure := CommitAndRenew();
      }
      if failure.Some? {
        return Some(ConvertErr(failure.value));
      }
      var _ := txn.Modify(target, None);
      e := None;
    }

    /** Has the transaction been reopened, or is the durable store still as it was? */
    twostate predicate RenewedOrKept()
      reads txn, txn.db
    {
      txn.readTs == txn.db.commits || (unchanged(txn.db) && txn.readTs == old(txn.readTs))
    }

    /** A conflict leaves the durable store as it was, and can only come from others' commits. */
    twostate predicate ConflictOnly(new e: Option<Failure>)
      reads txn, txn.db
    {
      e.Some? ==>
        e == Some(Conflict) && old(txn.readTs < txn.db.commits) && unchanged(txn.db) && txn.discarded
    }

    method DropEntries(target: Key) returns (e: Option<Failure>)
      requires Owned(txn) && txn.update && !txn.discarded && 2 <= txn.db.maxBatch
      modifies txn, txn.db
      ensures Owned(txn) && txn.db.closed == old(txn.db.closed)
      ensures ConflictOnly(e)
      ensures e == None ==> txn.update && !txn.discarded && RenewedOrKept()
      ensures e == None ==> Durable(txn) == old(Durable(txn)) - DirectKeys(old(txn.db.committed), target)
    {
      ghost var scanned, base := txn.db.committed, Durable(txn);
      ghost var left := base;
      var it := new Iterator(txn.db.committed);
      it.Rewind();
      it.Seek(target);
      ghost var lo := it.pos;
      while it.ValidForPrefix(target)
        invariant it.Valid() && lo <= it.pos
        invariant Owned(txn) && txn.update && !txn.discarded && txn.db.closed == old(txn.db.closed)
        invariant RenewedOrKept()
        invariant Durable(txn) == left == Swept(base, scanned, it.keys, lo, it.pos, target)
        decreases |it.keys| - it.pos
      {
        var k := it.keys[it.pos];
        MetStep(scanned, it.keys, lo, it.pos, target);
        if k != target && Owner(k, it.items[k]) == target {
          left := left - {k};
          e := DeleteRetrying(k);
          if e.Some? {
            return;
          }
          assert Durable(txn) == left;
        }
        assert left == Swept(base, scanned, it.keys, lo, it.pos + 1, target);
        it.Next();
      }
      e := None;
      SweepAll(base, scanned, it.keys, it.pos, target);
    }

    /** Deletes k, committing and reopening the transaction in place when it is full. */
    method DeleteRetrying(k: Key) returns (e: Option<Failure>)
      requires Owned(txn) && txn.update && !txn.discarded && 2 <= txn.db.maxBatch && k != []
      modifies txn, txn.db
      ensures Owned(txn) && txn.db.closed == old(txn.db.closed)
      ensures ConflictOnly(e)
      ensures e == None ==> txn.update && !txn.discarded && RenewedOrKept()
      ensures e == None ==> Durable(txn) == old(Durable(txn)) - {k}
    {
      ApplyDelete(txn.db.committed, txn.pending, k);
      var failure := txn.Modify(k, None);
      while failure == Some(TxnTooBig)
        invariant Owned(txn) && txn.update && !txn.discarded && txn.db.closed == old(txn.db.closed)
        invariant failure == None || failure == Some(TxnTooBig)
        invariant failure == None ==> Durable(txn) == old(Durable(txn)) - {k} && RenewedOrKept()
        invariant failure == Some(TxnTooBig) ==>
          unchanged(txn) && unchanged(txn.db) && txn.count + 1 >= txn.db.maxBatch
        decreases failure.Some?
      {
        e := CommitAndRenew();
        if e.Some? {
          return;
        }
        ApplyDelete(txn.db.committed, txn.pending, k);
        failure := txn.Modify(k, None);
      }
      e := None;
    }

    method CommitAndRenew() returns (e: Option<Failure>)
      requires Owned(txn) && !txn.discarded
      modifies txn, txn.db
      ensures Owned(txn) && txn.db.closed == old(txn.db.closed)
      ensures ConflictOnly(e)
      ensures e == None ==> txn.Fresh() && txn.update
      ensures e == None ==> txn.db.committed == old(Durable(txn)) == Durable(txn) == txn.View()
    {
      ApplyOwned(txn.db.committed, txn.pending);
      e := txn.Commit();
      if e == None {
        txn.Renew();
      }
    }
  }
}
