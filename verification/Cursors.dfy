/** Cursors: forward iteration over one bucket of the flat store. */
module Cursors {
  import opened Wrappers
  import opened Keys
  import opened BadgerStore
  import opened BucketLayout
  import opened Buckets

  /** Where a cursor comes to rest from position pos: at the next direct entry, or where the
      bucket's prefix ends. */
  function Rest(m: Store, ks: seq<Key>, pos: nat, prefix: Key): (j: nat)
    requires pos <= |ks|
    ensures pos <= j <= |ks|
    decreases |ks| - pos
  {
    if pos == |ks| || !(prefix <= ks[pos]) || IsDirect(m, ks[pos], prefix) then pos
    else Rest(m, ks, pos + 1, prefix)
  }

  /** What a cursor resting at pos returns. */
  function Yield(m: Store, ks: seq<Key>, pos: nat, prefix: Key): Option<Pair> {
    if pos < |ks| && IsDirect(m, ks[pos], prefix) then Some(PairOf(ks[pos], m[ks[pos]])) else None
  }

  /** The entries still to come from position pos. */
  function Remaining(m: Store, ks: seq<Key>, pos: nat, prefix: Key): seq<Pair>
    decreases |ks| - pos
  {
    if pos >= |ks| then [] else EntriesAt(m, ks[pos], prefix) + Remaining(m, ks, pos + 1, prefix)
  }

  class Cursor {
    const it: Iterator
    const prefix: Key
    const txn: Txn
    var ck: Option<Key>

    ghost predicate Valid()
      reads this, it
    {
      && it.Valid() && WellOwned(it.items)
      && (ck.Some? ==> Start() <= it.pos)
    }

    /** The position of the first key that is not below the bucket's prefix. */
    function Start(): nat
      reads this
    {
      LowerBound(it.keys, prefix)
    }

    /** A fresh cursor needs some key at or after its prefix, such as the bucket's own marker. */
    predicate Anchored()
      reads this
    {
      Start() < |it.keys|
    }

    function RestAfter(pos: nat): nat
      requires pos <= |it.keys|
      reads this
    {
      Rest(it.items, it.keys, pos, prefix)
    }

    /** The answer is what the iterator rests on, and a key that was answered is remembered. */
    ghost predicate Rests(entry: Option<Pair>)
      requires Valid()
      reads this, it
    {
      && entry == Yield(it.items, it.keys, it.pos, prefix)
      && (entry.Some? ==> ck == Some(it.keys[it.pos]))
    }

    constructor (b: Bucket)
      requires Owned(b.txn)
      ensures Valid() && fresh(it) && prefix == b.prefix && txn == b.txn && ck == None
      ensures it.items == b.txn.View()
    {
      ApplyOwned(b.txn.snapshot, b.txn.pending);
      it := new Iterator(b.txn.View());
      prefix, txn, ck := b.prefix, b.txn, None;
    }

    /** Positions the iterator on the first key behind the bucket's marker. */
    method SkipMarker()
      requires Valid() && Anchored()
      modifies it
      ensures Valid() && Start() <= it.pos && (it.pos < |it.keys| ==> it.keys[it.pos] != prefix)
      ensures RestAfter(it.pos) == RestAfter(Start())
    {
      it.Seek(prefix);
      if prefix == it.keys[it.pos] {
        BehindMarker(it.items, it.keys, prefix);
        it.Next();
      }
    }

    method First() returns (entry: Option<Pair>)
      requires Valid() && Anchored()
      modifies this`ck, it
      ensures Valid()
      ensures txn.db.closed ==> entry == None && unchanged(this) && unchanged(it)
      ensures !txn.db.closed ==> it.pos == RestAfter(Start()) && Rests(entry)
      ensures old(ck).Some? ==> ck.Some?
    {
      if txn.db.closed {
        return None;
      }
      it.Rewind();
      it.Seek(prefix);
      SkipMarker();
      entry := Arrive();
    }

    method Next() returns (entry: Option<Pair>)
      requires Valid() && (ck == None ==> Anchored())
      modifies this`ck, it
      ensures Valid()
      ensures txn.db.closed ==> entry == None && unchanged(this) && unchanged(it)
      ensures !txn.db.closed ==>
        && it.pos == RestAfter(if old(ck) == None then Start()
                               else if old(it.pos) < |it.keys| then old(it.pos) + 1 else old(it.pos))
        && Rests(entry)
      ensures old(ck).Some? ==> ck.Some?
      decreases if ck == None then 1 else 0, |it.keys| - it.pos, 1
    {
      if txn.db.closed {
        return None;
      }
      if ck == None {
        SkipMarker();
      } else {
        BehindMarker(it.items, it.keys, prefix);
        it.Next();
      }
      entry := Arrive();
    }

    /** Without a key this is First. An empty key lands on the bucket's own marker, which counts as an
        entry of a top-level bucket. */
    method Seek(seek: Option<Key>) returns (entry: Option<Pair>)
      requires Valid() && (seek == None ==> Anchored())
      modifies this`ck, it
      ensures Valid()
      ensures txn.db.closed || (seek.Some? && |seek.value| > MAX_KEY_SIZE) ==>
        entry == None && unchanged(this) && unchanged(it)
      ensures !txn.db.closed && (seek.Some? ==> |seek.value| <= MAX_KEY_SIZE) ==>
        if seek == Some([]) && MarkerOwnsItself(it.items, prefix) then OnMarker(entry)
        else && it.pos == RestAfter(LowerBound(it.keys, prefix + seek.GetOr([]))) && Rests(entry)
             && entry == FirstEntry(Listing(it.items, prefix), seek.GetOr([]))
      ensures old(ck).Some? ==> ck.Some?
    {
      SeekResult(it.items, prefix, seek.GetOr([]));
      assert prefix + [] == prefix;
      if txn.db.closed {
        return None;
      }
      if seek == None {
        entry := First();
        return;
      }
      if |seek.value| > MAX_KEY_SIZE {
        return None;
      }
      entry := SeekKey(seek.value);
    }

    method SeekKey(seek: Key) returns (entry: Option<Pair>)
      requires Valid() && !txn.db.closed
      modifies this`ck, it
      ensures Valid()
      ensures if seek == [] && MarkerOwnsItself(it.items, prefix) then OnMarker(entry)
              else it.pos == RestAfter(LowerBound(it.keys, prefix + seek)) && Rests(entry)
      ensures old(ck).Some? ==> ck.Some?
    {
      it.Seek(prefix + seek);
      SeekInside(it.items, prefix, seek);
      MarkerPosition(it.items, prefix, seek);
      if it.pos < |it.keys| && it.keys[it.pos] == prefix {
        entry := ArriveAtMarker();
      } else {
        entry := Arrive();
      }
    }

    /** The answer is the bucket's own marker, and the iterator rests on it. */
    ghost predicate OnMarker(entry: Option<Pair>)
      requires Valid()
      reads this, it
    {
      && entry == Some(([], None)) && ck == Some(prefix)
      && it.pos == Start() && it.pos < |it.keys| && it.keys[it.pos] == prefix
    }

    /** The same reading where the key under the iterator is the bucket's own marker. */
    method ArriveAtMarker() returns (entry: Option<Pair>)
      requires Valid() && !txn.db.closed && Start() <= it.pos
      requires it.pos < |it.keys| && it.keys[it.pos] == prefix
      modifies this`ck, it
      ensures Valid()
      ensures if MarkerOwnsItself(it.items, prefix) then OnMarker(entry)
              else it.pos == RestAfter(old(it.pos)) && Rests(entry)
      ensures ck.Some?
    {
      KeyStored(it.items, it.pos);
      MarkerPair(it.items, prefix);
      BehindMarker(it.items, it.keys, prefix);
      ck := Some(prefix);
      if Owner(prefix, it.items[prefix]) == prefix {
        return Some(PairOf(prefix, it.items[prefix]));
      }
      entry := Next();
    }

    /** Deletes the key under the cursor unless it is a bucket marker. */
    method Delete() returns (ok: bool)
      requires Valid() && Owned(txn)
      modifies txn
      ensures Valid() && Owned(txn)
      ensures txn.db.closed ==> !ok && unchanged(txn)
      ensures !txn.db.closed && !it.ValidForPrefix(prefix) ==> ok && unchanged(txn)
      ensures !txn.db.closed && it.ValidForPrefix(prefix) ==>
        var k := it.keys[it.pos];
        && k in it.items
        && ok == (!it.items[k].isBucket && old(txn.WriteFailure(k)) == None)
        && (if ok then txn.View() == old(txn.View()) - {k} else unchanged(txn))
    {
      if txn.db.closed {
        return false;
      }
      if it.ValidForPrefix(prefix) {
        var k := it.keys[it.pos];
        KeyStored(it.items, it.pos);
        if it.items[k].isBucket {
          return false;
        }
        var failure := txn.Modify(k, None);
        return failure == None;
      }
      ok := true;
    }

    /** One step of draining a cursor: what comes after the entry now comes first. */
    method Forward(entry: Pair, ghost coming: seq<Pair>) returns (next: Option<Pair>, ghost rest: seq<Pair>)
      requires Valid() && !txn.db.closed && Rests(Some(entry))
      requires coming == ToCome(it.items, it.keys, it.pos, prefix)
      modifies this`ck, it
      ensures Valid() && Rests(next)
      ensures coming == [entry] + rest && rest == ToCome(it.items, it.keys, it.pos, prefix)
    {
      ghost var m, ks, behind := it.items, it.keys, it.pos + 1;
      rest := Remaining(m, ks, behind, prefix);
      RestingPlace(m, ks, prefix, behind);
      next := Next();
      assert it.pos == Rest(m, ks, behind, prefix);
    }

    /** Next until nothing is left, from where the cursor rests. */
    method DrainOn(first: Option<Pair>, ghost coming: seq<Pair>) returns (entries: seq<Pair>)
      requires Valid() && !txn.db.closed && Rests(first)
      requires coming == ToCome(it.items, it.keys, it.pos, prefix)
      modifies this`ck, it
      ensures Valid() && entries == coming
    {
      entries := [];
      var entry := first;
      ghost var rest := coming;
      while entry.Some?
        invariant Valid() && !txn.db.closed && Rests(entry)
        invariant rest == ToCome(it.items, it.keys, it.pos, prefix)
        invariant coming == entries + rest
        decreases |rest|
      {
        ghost var shown, before := entry.value, entries;
        entries := entries + [entry.value];
        entry, rest := Forward(entry.value, rest);
        Associate(before, [shown], rest);
      }
    }

    /** The loop every caller writes: First, then Next until nothing is left. */
    method Drain() returns (entries: seq<Pair>)
      requires Valid() && Anchored() && !txn.db.closed
      modifies this`ck, it
      ensures Valid() && entries == Listing(it.items, prefix)
    {
      RestingPlace(it.items, it.keys, prefix, Start());
      RemainingAtStart(it.items, prefix);
      var entry := First();
      entries := DrainOn(entry, ToCome(it.items, it.keys, it.pos, prefix));
    }

    /** The rest of the bucket when the cursor rests on its marker. */
    method DrainBehindMarker() returns (entries: seq<Pair>)
      requires Valid() && !txn.db.closed && ck.Some?
      requires it.pos == Start() && it.pos < |it.keys| && it.keys[it.pos] == prefix
      modifies this`ck, it
      ensures Valid() && entries == Listing(it.items, prefix)
    {
      ghost var m, ks, behind := it.items, it.keys, it.pos + 1;
      AfterMarker(m, ks, prefix);
      var entry := Next();
      assert it.pos == Rest(m, ks, behind, prefix);
      entries := DrainOn(entry, ToCome(m, ks, it.pos, prefix));
    }

    /** The same from a seek: the bucket's entries that are not below the key, in order, after the marker
        of a top-level bucket if the key is empty. */
    method DrainFrom(seek: Option<Key>) returns (entries: seq<Pair>)
      requires Valid() && !txn.db.closed && (seek == None ==> Anchored())
      requires seek.Some? ==> |seek.value| <= MAX_KEY_SIZE
      modifies this`ck, it
      ensures Valid()
      ensures entries ==
        (if seek == Some([]) && MarkerOwnsItself(it.items, prefix) then [([], None)] else [])
        + EntriesFrom(Listing(it.items, prefix), seek.GetOr([]))
    {
      ghost var m, ks, name := it.items, it.keys, seek.GetOr([]);
      ComingFromSeek(m, prefix, name);
      NothingBelowEmpty(Listing(m, prefix));
      var entry := Seek(seek);
      if entry == Some(([], None)) && it.keys[it.pos] == prefix {
        var rest := DrainBehindMarker();
        entries := [([], None)] + rest;
      } else {
        entries := DrainOn(entry, ToCome(m, ks, it.pos, prefix));
      }
    }

    /** Reads the entry under the iterator, moving on while it belongs to another bucket. */
    method Arrive() returns (entry: Option<Pair>)
      requires Valid() && !txn.db.closed && Start() <= it.pos
      requires it.pos < |it.keys| ==> it.keys[it.pos] != prefix
      modifies this`ck, it
      ensures Valid()
      ensures it.pos == RestAfter(old(it.pos)) && Rests(entry)
      ensures old(ck).Some? ==> ck.Some?
      decreases 0, |it.keys| - it.pos, if it.pos == |it.keys| then 0 else 2
    {
      if !it.ValidForPrefix(prefix) {
        NoEntryOutside(it.items, it.pos, prefix);
        return None;
      }
      var k := it.keys[it.pos];
      KeyStored(it.items, it.pos);
      ck := Some(k);
      if Owner(k, it.items[k]) == prefix {
        return Some(PairOf(k, it.items[k]));
      }
      entry := Next();
    }
  }

  lemma KeyStored(m: Store, pos: nat)
    requires pos < |Sorted(m.Keys)|
    ensures Sorted(m.Keys)[pos] in m
  {
    SortedAscends(m.Keys);
    assert Sorted(m.Keys)[pos] in Sorted(m.Keys);
  }

  /** Only the first key that is not below the prefix can be the marker. */
  lemma BehindMarker(m: Store, ks: seq<Key>, prefix: Key)
    requires ks == Sorted(m.Keys)
    ensures forall j | LowerBound(ks, prefix) < j < |ks| :: ks[j] != prefix
  {
    SortedAscends(m.Keys);
    forall j | LowerBound(ks, prefix) < j < |ks| ensures ks[j] != prefix {
      assert Less(ks[LowerBound(ks, prefix)], ks[j]);
    }
  }

  lemma NoEntryOutside(m: Store, pos: nat, prefix: Key)
    requires pos <= |Sorted(m.Keys)| && (pos < |Sorted(m.Keys)| ==> !(prefix <= Sorted(m.Keys)[pos]))
    ensures Yield(m, Sorted(m.Keys), pos, prefix) == None
  {
  }

  /** The first entry that is not below a name. */
  function FirstEntry(l: seq<Pair>, name: Key): Option<Pair> {
    if l == [] then None else if Less(l[0].0, name) then FirstEntry(l[1..], name) else Some(l[0])
  }

  /** The entries that are not below a name. */
  function EntriesFrom(l: seq<Pair>, name: Key): seq<Pair> {
    if l == [] then []
    else
      var rest := EntriesFrom(l[1..], name);
      if Less(l[0].0, name) then rest else [l[0]] + rest
  }

  lemma {:induction false} EntriesFromSplit(a: seq<Pair>, b: seq<Pair>, name: Key)
    requires forall e | e in a :: Less(e.0, name)
    requires forall e | e in b :: !Less(e.0, name)
    ensures EntriesFrom(a + b, name) == b
    decreases |a| + |b|
  {
    if a != [] {
      assert (a + b)[1..] == a[1..] + b;
      EntriesFromSplit(a[1..], b, name);
    } else if b != [] {
      assert a + b == b && [] + b[1..] == b[1..];
      EntriesFromSplit([], b[1..], name);
      assert b[0] in b;
    }
  }

  /** What comes from a seek position is what is not below the name. */
  lemma ComingFromSeek(m: Store, prefix: Key, name: Key)
    ensures var ks := Sorted(m.Keys);
      ToCome(m, ks, Rest(m, ks, LowerBound(ks, prefix + name), prefix), prefix)
      == EntriesFrom(Listing(m, prefix), name)
  {
    var ks := Sorted(m.Keys);
    var at := LowerBound(ks, prefix + name);
    SeekInside(m, prefix, name);
    RestingPlace(m, ks, prefix, at);
    RemainingIsAmong(m, ks, at, prefix);
    SeekSplits(m, prefix, name);
    EntriesFromSplit(DirectAmong(m, ks[..at], prefix), DirectAmong(m, ks[at..], prefix), name);
  }

  /** A seek position separates the entries below the name from the others. */
  lemma SeekSplits(m: Store, prefix: Key, name: Key)
    ensures var ks := Sorted(m.Keys);
      var at := LowerBound(ks, prefix + name);
      && Listing(m, prefix) == DirectAmong(m, ks[..at], prefix) + DirectAmong(m, ks[at..], prefix)
      && (forall e | e in DirectAmong(m, ks[..at], prefix) :: Less(e.0, name))
      && (forall e | e in DirectAmong(m, ks[at..], prefix) :: !Less(e.0, name))
  {
    var ks := Sorted(m.Keys);
    var at := LowerBound(ks, prefix + name);
    assert ks == ks[..at] + ks[at..];
    DirectAmongConcat(m, ks[..at], ks[at..], prefix);
    forall e | e in DirectAmong(m, ks[..at], prefix) ensures Less(e.0, name) {
      var k := EntryKey(m, ks[..at], prefix, e);
      LessUnderPrefix(prefix, e.0, name);
    }
    forall e | e in DirectAmong(m, ks[at..], prefix) ensures !Less(e.0, name) {
      var k := EntryKey(m, ks[at..], prefix, e);
      NotBelow(m, prefix + name, k);
      LessUnderPrefix(prefix, e.0, name);
    }
  }

  /** Behind a bucket's own marker the whole listing is still to come. */
  lemma AfterMarker(m: Store, ks: seq<Key>, prefix: Key)
    requires ks == Sorted(m.Keys) && LowerBound(ks, prefix) < |ks| && ks[LowerBound(ks, prefix)] == prefix
    ensures ToCome(m, ks, Rest(m, ks, LowerBound(ks, prefix) + 1, prefix), prefix) == Listing(m, prefix)
  {
    var lo := LowerBound(ks, prefix);
    assert !IsDirect(m, ks[lo], prefix);
    RemainingAtStart(m, prefix);
    assert Remaining(m, ks, lo, prefix) == [] + Remaining(m, ks, lo + 1, prefix);
    RestingPlace(m, ks, prefix, lo + 1);
  }

  lemma {:induction false} NothingBelowEmpty(l: seq<Pair>)
    ensures EntriesFrom(l, []) == l
  {
    if l != [] {
      NothingBelowEmpty(l[1..]);
    }
  }

  /** A marker that owns itself reads as an entry with an empty name. */
  lemma MarkerPair(m: Store, prefix: Key)
    ensures MarkerOwnsItself(m, prefix) ==> PairOf(prefix, m[prefix]) == ([], None)
  {
    assert prefix[|prefix|..] == [];
  }

  /** Is the bucket's marker a top-level one, whose owner byte spans the whole key? */
  predicate MarkerOwnsItself(m: Store, prefix: Key) {
    prefix in m && ItemOwned(prefix, m[prefix]) && Owner(prefix, m[prefix]) == prefix
  }

  /** The entry a resting cursor yields, and those after it. */
  function ToCome(m: Store, ks: seq<Key>, pos: nat, prefix: Key): seq<Pair> {
    match Yield(m, ks, pos, prefix)
    case None => []
    case Some(entry) => [entry] + Remaining(m, ks, pos + 1, prefix)
  }

  /** From any position at or behind the prefix's start, the cursor comes to rest on the first
      remaining entry. */
  lemma {:induction false} RestingPlace(m: Store, ks: seq<Key>, prefix: Key, pos: nat)
    requires ks == Sorted(m.Keys) && LowerBound(ks, prefix) <= pos <= |ks|
    ensures Remaining(m, ks, pos, prefix) == ToCome(m, ks, Rest(m, ks, pos, prefix), prefix)
    decreases |ks| - pos
  {
    if pos < |ks| {
      if !(prefix <= ks[pos]) {
        SortedAscends(m.Keys);
        OutsideScan(m, ks, prefix, pos);
        RemainingIsAmong(m, ks, pos, prefix);
      } else if !IsDirect(m, ks[pos], prefix) {
        RestingPlace(m, ks, prefix, pos + 1);
      }
    }
  }

  lemma {:induction false} RemainingIsAmong(m: Store, ks: seq<Key>, pos: nat, prefix: Key)
    requires pos <= |ks|
    ensures Remaining(m, ks, pos, prefix) == DirectAmong(m, ks[pos..], prefix)
    decreases |ks| - pos
  {
    if pos < |ks| {
      RemainingIsAmong(m, ks, pos + 1, prefix);
      assert ks[pos..][1..] == ks[pos + 1..];
    }
  }

  lemma RemainingAtStart(m: Store, prefix: Key)
    ensures Remaining(m, Sorted(m.Keys), LowerBound(Sorted(m.Keys), prefix), prefix) == Listing(m, prefix)
  {
    var ks := Sorted(m.Keys);
    var lo := LowerBound(ks, prefix);
    SortedAscends(m.Keys);
    OutsideScan(m, ks, prefix, |ks|);
    DirectAmongSplit(m, ks, lo, lo, prefix);
    RemainingIsAmong(m, ks, lo, prefix);
    assert ks[lo..lo] == [];
  }

  /** What a cursor yields from a seek position is the first entry not below the name. */
  lemma SeekResult(m: Store, prefix: Key, name: Key)
    ensures var ks := Sorted(m.Keys);
      Yield(m, ks, Rest(m, ks, LowerBound(ks, prefix + name), prefix), prefix) == FirstEntry(Listing(m, prefix), name)
  {
    var ks := Sorted(m.Keys);
    SeekInside(m, prefix, name);
    RestingPlace(m, ks, prefix, LowerBound(ks, prefix + name));
    FirstOfListing(m, prefix, name);
  }

  /** Seeking lands on the bucket's own marker at most for the empty name. */
  lemma MarkerPosition(m: Store, prefix: Key, name: Key)
    ensures var ks := Sorted(m.Keys);
      var at := LowerBound(ks, prefix + name);
      && (at < |ks| && ks[at] == prefix ==> name == [])
      && (name == [] && prefix in m ==> at < |ks| && ks[at] == prefix)
  {
    var ks := Sorted(m.Keys);
    SortedAscends(m.Keys);
    PrefixLeq(prefix, prefix + name);
    if name == [] && prefix in m {
      assert prefix + name == prefix;
      FoundAt(ks, prefix);
    }
  }

  lemma {:induction false} FoundAt(ks: seq<Key>, k: Key)
    requires Ascending(ks) && k in ks
    ensures LowerBound(ks, k) < |ks| && ks[LowerBound(ks, k)] == k
  {
    LessIrreflexive(k);
    if ks[0] != k {
      assert k in ks[1..];
      FoundAt(ks[1..], k);
      var j :| 1 <= j < |ks| && ks[j] == k;
      assert Less(ks[0], ks[j]);
    }
  }

  /** Seeking a name lands behind the start of the bucket's prefix. */
  lemma SeekInside(m: Store, prefix: Key, name: Key)
    ensures LowerBound(Sorted(m.Keys), prefix) <= LowerBound(Sorted(m.Keys), prefix + name)
  {
    var ks := Sorted(m.Keys);
    SortedAscends(m.Keys);
    PrefixLeq(prefix, prefix + name);
    var lo, at := LowerBound(ks, prefix), LowerBound(ks, prefix + name);
    if at < lo {
      LeqTransitive(ks[at], prefix, prefix + name);
      assert false;
    }
  }

  /** The entries behind a seek position are those of the listing that are not below the name. */
  lemma FirstOfListing(m: Store, prefix: Key, name: Key)
    ensures var ks := Sorted(m.Keys);
      var rest := Remaining(m, ks, LowerBound(ks, prefix + name), prefix);
      FirstEntry(Listing(m, prefix), name) == if rest == [] then None else Some(rest[0])
  {
    var ks := Sorted(m.Keys);
    var at := LowerBound(ks, prefix + name);
    var before, rest := DirectAmong(m, ks[..at], prefix), DirectAmong(m, ks[at..], prefix);
    RemainingIsAmong(m, ks, at, prefix);
    SeekSplits(m, prefix, name);
    FirstEntrySkips(before, rest, name);
  }

  lemma NotBelow(m: Store, bound: Key, k: Key)
    requires k in Sorted(m.Keys)[LowerBound(Sorted(m.Keys), bound)..]
    ensures !Less(k, bound)
  {
    var ks := Sorted(m.Keys);
    SortedAscends(m.Keys);
    var at := LowerBound(ks, bound);
    var j :| at <= j < |ks| && ks[j] == k;
    if Less(k, bound) && at < j {
      LessTransitive(ks[at], k, bound);
    }
  }

  lemma {:induction false} EntryKey(m: Store, ks: seq<Key>, prefix: Key, e: Pair) returns (k: Key)
    requires e in DirectAmong(m, ks, prefix)
    ensures k in ks && k == prefix + e.0
  {
    if IsDirect(m, ks[0], prefix) && e == PairOf(ks[0], m[ks[0]]) {
      k := ks[0];
    } else {
      k := EntryKey(m, ks[1..], prefix, e);
    }
  }

  lemma {:induction false} FirstEntrySkips(a: seq<Pair>, b: seq<Pair>, name: Key)
    requires forall e | e in a :: Less(e.0, name)
    ensures FirstEntry(a + b, name) == FirstEntry(b, name)
  {
    if a == [] {
      assert a + b == b;
    } else {
      FirstEntrySkips(a[1..], b, name);
      assert (a + b)[1..] == a[1..] + b;
    }
  }
}
