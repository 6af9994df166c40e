/** How buckets are laid out in the flat store. A bucket is a prefix; an entry's flat key is
    prefix ++ key; the first byte of every value is the (truncated) length of the owning prefix. */
module BucketLayout {
  import opened Wrappers
  import opened Keys
  import opened BadgerStore

  const MAX_KEY_SIZE := 65378

  /** The value bytes val, preceded by the owner length as one byte. */
  function InsertPrefixLength(val: seq<byte>, length: nat): seq<byte> {
    [length % 256] + val
  }

  function Marker(length: nat): Item {
    Item(true, InsertPrefixLength([], length))
  }

  function Leaf(value: seq<byte>, length: nat): Item {
    Item(false, InsertPrefixLength(value, length))
  }

  /** The owner byte is present and within the key; it spans the whole key only for a
      top-level marker. */
  predicate ItemOwned(k: Key, item: Item) {
    && item.value != []
    && item.value[0] <= |k|
    && (item.value[0] == |k| ==> item.isBucket)
  }

  ghost predicate WellOwned(m: Store) {
    forall k | k in m :: ItemOwned(k, m[k])
  }

  ghost predicate WritesOwned(w: Writes) {
    forall k | k in w && w[k].Some? :: ItemOwned(k, w[k].value)
  }

  /** The prefix that the owner byte names. */
  function Owner(k: Key, item: Item): Key
    requires ItemOwned(k, item)
  {
    k[..item.value[0]]
  }

  /** Is k an entry of the bucket with this prefix, as every scan of the driver decides it? */
  predicate IsDirect(m: Store, k: Key, prefix: Key) {
    k in m && k != prefix && ItemOwned(k, m[k]) && Owner(k, m[k]) == prefix
  }

  /** What a scan reports: the key inside the bucket, and no value for a nested bucket. */
  type Pair = (Key, Option<seq<byte>>)

  function PairOf(k: Key, item: Item): Pair
    requires ItemOwned(k, item)
  {
    (k[item.value[0]..], if item.isBucket then None else Some(item.value[1..]))
  }

  /** What a bucket has to report at one key. */
  function EntriesAt(m: Store, k: Key, prefix: Key): seq<Pair> {
    if IsDirect(m, k, prefix) then [PairOf(k, m[k])] else []
  }

  /** The entries of one bucket among the keys ks, in their order. */
  function DirectAmong(m: Store, ks: seq<Key>, prefix: Key): seq<Pair> {
    if ks == [] then [] else EntriesAt(m, ks[0], prefix) + DirectAmong(m, ks[1..], prefix)
  }

  /** The contents of a bucket: its entries in ascending key order. */
  function Listing(m: Store, prefix: Key): seq<Pair> {
    DirectAmong(m, Sorted(m.Keys), prefix)
  }

  /** The flat keys a bucket owns, without its own marker. */
  function DirectKeys(m: Store, prefix: Key): set<Key> {
    set k | k in m && IsDirect(m, k, prefix)
  }

  lemma ApplyOwned(base: Store, w: Writes)
    requires WellOwned(base) && WritesOwned(w)
    ensures WellOwned(Apply(base, w))
  {
  }

  /** Every value the driver writes respects the ownership invariant, truncated owner byte included. */
  lemma WritesAreOwned(prefix: Key, key: Key, value: seq<byte>)
    ensures ItemOwned(prefix, Marker(|prefix|))
    ensures key != [] ==> ItemOwned(prefix + key, Marker(|prefix|))
    ensures key != [] ==> ItemOwned(prefix + key, Leaf(value, |prefix|))
  {
  }

  /** No flat key belongs to two buckets. */
  lemma ViewsDisjoint(m: Store, p: Key, q: Key)
    requires p != q
    ensures DirectKeys(m, p) !! DirectKeys(m, q)
  {
  }

  /** A direct entry's flat key starts with the bucket's prefix and properly extends it. */
  lemma DirectExtends(m: Store, k: Key, prefix: Key)
    requires IsDirect(m, k, prefix)
    ensures prefix <= k && |prefix| < |k|
  {
  }

  lemma {:induction false} DirectAmongConcat(m: Store, a: seq<Key>, b: seq<Key>, prefix: Key)
    ensures DirectAmong(m, a + b, prefix) == DirectAmong(m, a, prefix) + DirectAmong(m, b, prefix)
  {
    if a == [] {
      assert a + b == b;
    } else {
      assert (a + b)[1..] == a[1..] + b;
      assert DirectAmong(m, a + b, prefix) == EntriesAt(m, a[0], prefix) + DirectAmong(m, a[1..] + b, prefix);
      DirectAmongConcat(m, a[1..], b, prefix);
      Associate(EntriesAt(m, a[0], prefix), DirectAmong(m, a[1..], prefix), DirectAmong(m, b, prefix));
    }
  }

  lemma Associate(a: seq<Pair>, b: seq<Pair>, c: seq<Pair>)
    ensures a + (b + c) == (a + b) + c
  {
  }

  lemma DirectAmongSplit(m: Store, ks: seq<Key>, lo: nat, hi: nat, prefix: Key)
    requires lo <= hi <= |ks|
    ensures DirectAmong(m, ks, prefix)
      == DirectAmong(m, ks[..lo], prefix) + DirectAmong(m, ks[lo..hi], prefix) + DirectAmong(m, ks[hi..], prefix)
  {
    assert ks[..hi] == ks[..lo] + ks[lo..hi] && ks == ks[..hi] + ks[hi..];
    DirectAmongConcat(m, ks[..lo], ks[lo..hi], prefix);
    DirectAmongConcat(m, ks[..hi], ks[hi..], prefix);
  }

  /** The entries a scan of ks[lo..pos] reports. */
  function Seen(m: Store, ks: seq<Key>, lo: nat, pos: nat, prefix: Key): seq<Pair>
    requires lo <= pos <= |ks|
  {
    if lo == pos then [] else Seen(m, ks, lo, pos - 1, prefix) + EntriesAt(m, ks[pos - 1], prefix)
  }

  lemma {:induction false} SeenIsAmong(m: Store, ks: seq<Key>, lo: nat, pos: nat, prefix: Key)
    requires lo <= pos <= |ks|
    ensures Seen(m, ks, lo, pos, prefix) == DirectAmong(m, ks[lo..pos], prefix)
  {
    if lo < pos {
      SeenIsAmong(m, ks, lo, pos - 1, prefix);
      var last := ks[pos - 1];
      assert ks[lo..pos] == ks[lo..pos - 1] + [last];
      DirectAmongConcat(m, ks[lo..pos - 1], [last], prefix);
      assert DirectAmong(m, [last], prefix) == EntriesAt(m, last, prefix);
    }
  }

  lemma {:induction false} DirectAmongNone(m: Store, ks: seq<Key>, prefix: Key)
    requires forall k | k in ks :: !IsDirect(m, k, prefix)
    ensures DirectAmong(m, ks, prefix) == []
  {
    if ks != [] {
      DirectAmongNone(m, ks[1..], prefix);
    }
  }

  /** In an ascending key sequence, seeking a prefix and stopping at the first key without it
      passes every key that has it. */
  lemma ScanCovers(ks: seq<Key>, prefix: Key, hi: nat, j: nat)
    requires Ascending(ks)
    requires LowerBound(ks, prefix) <= hi <= |ks| && (hi < |ks| ==> !(prefix <= ks[hi]))
    requires j < |ks| && prefix <= ks[j]
    ensures LowerBound(ks, prefix) <= j < hi
  {
    var lo := LowerBound(ks, prefix);
    PrefixLeq(prefix, ks[j]);
    if j < lo {
      LeqAntisymmetric(prefix, ks[j]);
      LessIrreflexive(prefix);
      assert false;
    }
    if hi <= j {
      LessTotal(prefix, ks[lo]);
      if lo < hi {
        LeqTransitive(prefix, ks[lo], ks[hi]);
      }
      PrefixConvex(prefix, ks[hi], ks[j]);
      assert false;
    }
  }

  lemma OutsideScan(m: Store, ks: seq<Key>, prefix: Key, hi: nat)
    requires Ascending(ks)
    requires LowerBound(ks, prefix) <= hi <= |ks| && (hi < |ks| ==> !(prefix <= ks[hi]))
    ensures DirectAmong(m, ks[..LowerBound(ks, prefix)], prefix) == []
    ensures DirectAmong(m, ks[hi..], prefix) == []
  {
    var lo := LowerBound(ks, prefix);
    forall j: nat | j < |ks| && IsDirect(m, ks[j], prefix) ensures lo <= j < hi {
      DirectExtends(m, ks[j], prefix);
      ScanCovers(ks, prefix, hi, j);
    }
    DirectAmongNone(m, ks[..lo], prefix);
    DirectAmongNone(m, ks[hi..], prefix);
  }

  /** What is left of base when a scan of m's keys ks[lo..pos] deletes every entry it meets. */
  ghost function Swept(base: Store, m: Store, ks: seq<Key>, lo: nat, pos: nat, prefix: Key): Store
    requires lo <= pos <= |ks|
  {
    if lo == pos then base
    else
      var rest := Swept(base, m, ks, lo, pos - 1, prefix);
      if IsDirect(m, ks[pos - 1], prefix) then rest - {ks[pos - 1]} else rest
  }

  /** The entries deleted by a scan of ks[lo..pos] that can delete no more than cap of them. */
  ghost function Taken(m: Store, ks: seq<Key>, lo: nat, pos: nat, prefix: Key, cap: nat): set<Key>
    requires lo <= pos <= |ks|
  {
    if lo == pos then {}
    else
      var before := Taken(m, ks, lo, pos - 1, prefix, cap);
      if IsDirect(m, ks[pos - 1], prefix) && |before| < cap then before + {ks[pos - 1]} else before
  }

  /** The entries a scan of ks[lo..pos] meets. */
  ghost function Met(m: Store, ks: seq<Key>, lo: nat, pos: nat, prefix: Key): set<Key>
    requires lo <= pos <= |ks|
  {
    if lo == pos then {}
    else
      var before := Met(m, ks, lo, pos - 1, prefix);
      if IsDirect(m, ks[pos - 1], prefix) then before + {ks[pos - 1]} else before
  }

  lemma {:induction false} MetMember(m: Store, ks: seq<Key>, lo: nat, pos: nat, prefix: Key, k: Key)
    requires lo <= pos <= |ks|
    ensures k in Met(m, ks, lo, pos, prefix) <==> IsDirect(m, k, prefix) && k in ks[lo..pos]
  {
    if lo < pos {
      MetMember(m, ks, lo, pos - 1, prefix, k);
      assert ks[lo..pos] == ks[lo..pos - 1] + [ks[pos - 1]];
    }
  }

  lemma MetStep(m: Store, ks: seq<Key>, lo: nat, pos: nat, prefix: Key)
    requires ks == Sorted(m.Keys) && lo <= pos < |ks|
    ensures ks[pos] in m && ks[pos] !in Met(m, ks, lo, pos, prefix)
  {
    SortedAscends(m.Keys);
    LessIrreflexive(ks[pos]);
    assert ks[pos] in ks;
    MetMember(m, ks, lo, pos, prefix, ks[pos]);
  }

  lemma {:induction false} SweptIsMinusMet(base: Store, m: Store, ks: seq<Key>, lo: nat, pos: nat, prefix: Key)
    requires ks == Sorted(m.Keys) && lo <= pos <= |ks|
    ensures Swept(base, m, ks, lo, pos, prefix) == base - Met(m, ks, lo, pos, prefix)
  {
    if lo < pos {
      SweptIsMinusMet(base, m, ks, lo, pos - 1, prefix);
      MetStep(m, ks, lo, pos - 1, prefix);
      MinusOneMore(base, Met(m, ks, lo, pos - 1, prefix), ks[pos - 1]);
    }
  }

  lemma MinusOneMore(m: Store, met: set<Key>, k: Key)
    ensures m - (met + {k}) == m - met - {k}
  {
  }

  /** While the cap is not exhausted nothing is missed; once it is, something met is still there. */
  lemma {:induction false} TakenOfMet(m: Store, ks: seq<Key>, lo: nat, pos: nat, prefix: Key, cap: nat)
    requires ks == Sorted(m.Keys) && lo <= pos <= |ks|
    ensures CappedBy(Taken(m, ks, lo, pos, prefix, cap), Met(m, ks, lo, pos, prefix), cap)
  {
    if lo < pos {
      TakenOfMet(m, ks, lo, pos - 1, prefix, cap);
      if IsDirect(m, ks[pos - 1], prefix) {
        MetStep(m, ks, lo, pos - 1, prefix);
        TakeOneMore(Taken(m, ks, lo, pos - 1, prefix, cap), Met(m, ks, lo, pos - 1, prefix), ks[pos - 1], cap);
      }
    }
  }

  ghost predicate CappedBy(taken: set<Key>, met: set<Key>, cap: nat) {
    taken <= met && |taken| == if |met| <= cap then |met| else cap
  }

  lemma TakeOneMore(taken: set<Key>, met: set<Key>, k: Key, cap: nat)
    requires CappedBy(taken, met, cap) && k !in met
    ensures CappedBy(if |taken| < cap then taken + {k} else taken, met + {k}, cap)
  {
  }

  /** One step of a capped scan. */
  lemma TakenStep(m: Store, ks: seq<Key>, lo: nat, pos: nat, prefix: Key, cap: nat)
    requires ks == Sorted(m.Keys) && lo <= pos < |ks|
    ensures ks[pos] in m
    ensures var taken := Taken(m, ks, lo, pos, prefix, cap);
      && ks[pos] !in taken
      && (if IsDirect(m, ks[pos], prefix) && |taken| < cap
          then Taken(m, ks, lo, pos + 1, prefix, cap) == taken + {ks[pos]} && |taken + {ks[pos]}| == |taken| + 1
          else Taken(m, ks, lo, pos + 1, prefix, cap) == taken)
    ensures m - (Taken(m, ks, lo, pos, prefix, cap) + {ks[pos]}) == m - Taken(m, ks, lo, pos, prefix, cap) - {ks[pos]}
  {
    TakenOfMet(m, ks, lo, pos, prefix, cap);
    MetStep(m, ks, lo, pos, prefix);
    MetInStore(m, ks, lo, pos, prefix);
    MinusOneMore(m, Taken(m, ks, lo, pos, prefix, cap), ks[pos]);
  }

  lemma MetInStore(m: Store, ks: seq<Key>, lo: nat, pos: nat, prefix: Key)
    requires ks == Sorted(m.Keys) && lo <= pos <= |ks|
    ensures Met(m, ks, lo, pos, prefix) <= DirectKeys(m, prefix)
  {
    forall k | k in Met(m, ks, lo, pos, prefix) ensures k in DirectKeys(m, prefix) {
      MetMember(m, ks, lo, pos, prefix, k);
    }
  }

  lemma ScanMeetsAll(m: Store, ks: seq<Key>, hi: nat, prefix: Key)
    requires ks == Sorted(m.Keys)
    requires LowerBound(ks, prefix) <= hi <= |ks| && (hi < |ks| ==> !(prefix <= ks[hi]))
    ensures Met(m, ks, LowerBound(ks, prefix), hi, prefix) == DirectKeys(m, prefix)
  {
    forall k ensures k in Met(m, ks, LowerBound(ks, prefix), hi, prefix) <==> k in DirectKeys(m, prefix) {
      MetMember(m, ks, LowerBound(ks, prefix), hi, prefix, k);
      if k in DirectKeys(m, prefix) {
        DirectInScan(m, ks, hi, prefix, k);
      }
    }
  }

  lemma DirectInScan(m: Store, ks: seq<Key>, hi: nat, prefix: Key, k: Key)
    requires ks == Sorted(m.Keys)
    requires LowerBound(ks, prefix) <= hi <= |ks| && (hi < |ks| ==> !(prefix <= ks[hi]))
    requires IsDirect(m, k, prefix)
    ensures k in ks[LowerBound(ks, prefix)..hi]
  {
    SortedAscends(m.Keys);
    var j :| 0 <= j < |ks| && ks[j] == k;
    DirectExtends(m, k, prefix);
    ScanCovers(ks, prefix, hi, j);
    InSlice(ks, LowerBound(ks, prefix), hi, j);
  }

  lemma InSlice(ks: seq<Key>, lo: nat, hi: nat, j: nat)
    requires lo <= j < hi <= |ks|
    ensures ks[j] in ks[lo..hi]
  {
    assert ks[lo..hi][j - lo] == ks[j];
  }

  /** A scan of a bucket's prefix sweeps exactly the bucket's entries. */
  lemma SweepAll(base: Store, m: Store, ks: seq<Key>, hi: nat, prefix: Key)
    requires ks == Sorted(m.Keys)
    requires LowerBound(ks, prefix) <= hi <= |ks| && (hi < |ks| ==> !(prefix <= ks[hi]))
    ensures Swept(base, m, ks, LowerBound(ks, prefix), hi, prefix) == base - DirectKeys(m, prefix)
  {
    ScanMeetsAll(m, ks, hi, prefix);
    SweptIsMinusMet(base, m, ks, LowerBound(ks, prefix), hi, prefix);
  }

  /** A capped sweep removes every entry exactly if there are no more than the cap. */
  lemma TakenAll(m: Store, ks: seq<Key>, hi: nat, prefix: Key, cap: nat)
    requires ks == Sorted(m.Keys)
    requires LowerBound(ks, prefix) <= hi <= |ks| && (hi < |ks| ==> !(prefix <= ks[hi]))
    ensures var taken := Taken(m, ks, LowerBound(ks, prefix), hi, prefix, cap);
      && prefix !in taken
      && (m - taken == m - DirectKeys(m, prefix) <==> |DirectKeys(m, prefix)| <= cap)
  {
    var lo := LowerBound(ks, prefix);
    ScanMeetsAll(m, ks, hi, prefix);
    TakenOfMet(m, ks, lo, hi, prefix, cap);
    MinusSame(m, Taken(m, ks, lo, hi, prefix, cap), DirectKeys(m, prefix));
  }

  lemma MinusSame(m: Store, a: set<Key>, b: set<Key>)
    requires a <= b <= m.Keys
    ensures m - a == m - b <==> |a| == |b|
  {
    if |a| == |b| {
      SubsetOfSameSize(a, b);
    } else {
      assert a != b;
      assert exists k :: k in b && k !in a;
      var k :| k in b && k !in a;
      assert k in m - a && k !in m - b;
    }
  }

  lemma SubsetOfSameSize(a: set<Key>, b: set<Key>)
    requires a <= b && |a| == |b|
    ensures a == b
  {
    assert b == a + (b - a);
  }

  /** A scan of a bucket's prefix reports exactly the bucket's listing, and a prefix of it on the way. */
  lemma SeenAll(m: Store, ks: seq<Key>, pos: nat, prefix: Key)
    requires ks == Sorted(m.Keys)
    requires LowerBound(ks, prefix) <= pos <= |ks|
    ensures Seen(m, ks, LowerBound(ks, prefix), pos, prefix) <= Listing(m, prefix)
    ensures (pos < |ks| ==> !(prefix <= ks[pos])) ==>
      Seen(m, ks, LowerBound(ks, prefix), pos, prefix) == Listing(m, prefix)
  {
    var lo := LowerBound(ks, prefix);
    SortedAscends(m.Keys);
    SeenIsAmong(m, ks, lo, pos, prefix);
    DirectAmongSplit(m, ks, lo, pos, prefix);
    OutsideScan(m, ks, prefix, if pos < |ks| && prefix <= ks[pos] then |ks| else pos);
  }

  /** The names of a bucket's entries. */
  function ChildNames(m: Store, prefix: Key): set<Key> {
    set k | k in m && IsDirect(m, k, prefix) :: k[|prefix|..]
  }

  lemma ChildName(m: Store, prefix: Key, n: Key)
    ensures n in ChildNames(m, prefix) <==> IsDirect(m, prefix + n, prefix)
  {
    if IsDirect(m, prefix + n, prefix) {
      assert (prefix + n)[|prefix|..] == n;
    }
    if n in ChildNames(m, prefix) {
      var k :| k in m && IsDirect(m, k, prefix) && k[|prefix|..] == n;
      assert k == prefix + n;
    }
  }

  /** What the store says about the entry n of a bucket. */
  function EntryOf(m: Store, prefix: Key, n: Key): Pair
    requires IsDirect(m, prefix + n, prefix)
  {
    (n, PairOf(prefix + n, m[prefix + n]).1)
  }

  /** A bucket's listing, read entry by entry: its names in ascending order, each with its value. */
  lemma ListingByName(m: Store, prefix: Key)
    ensures var names := Sorted(ChildNames(m, prefix));
      && |Listing(m, prefix)| == |names|
      && forall i | 0 <= i < |names| ::
           IsDirect(m, prefix + names[i], prefix) && Listing(m, prefix)[i] == EntryOf(m, prefix, names[i])
  {
    SortedAscends(m.Keys);
    SortedAscends(ChildNames(m, prefix));
    var names := NamesAmong(m, Sorted(m.Keys), prefix);
    forall n ensures n in names <==> n in Sorted(ChildNames(m, prefix)) {
      ChildName(m, prefix, n);
    }
    AscendingUnique(names, Sorted(ChildNames(m, prefix)));
  }

  /** The names come in the order of bytes.Compare, so none comes twice. */
  ghost predicate InByteOrder(l: seq<Pair>) {
    forall i, j {:trigger l[i], l[j]} | 0 <= i < j < |l| :: ByteBefore(l[i].0, l[j].0)
  }

  lemma ListingInByteOrder(m: Store, prefix: Key)
    ensures InByteOrder(Listing(m, prefix))
  {
    ListingByName(m, prefix);
    SortedAscends(ChildNames(m, prefix));
    var names, l := Sorted(ChildNames(m, prefix)), Listing(m, prefix);
    forall i, j | 0 <= i < j < |l| ensures ByteBefore(l[i].0, l[j].0) {
      assert Less(names[i], names[j]);
      LessIsByteOrder(names[i], names[j]);
    }
  }

  /** names lists, in order, the names of the bucket's entries among the flat keys ks. */
  ghost predicate NamesOf(m: Store, ks: seq<Key>, prefix: Key, names: seq<Key>) {
    && Ascending(names)
    && (forall n :: n in names <==> prefix + n in ks && IsDirect(m, prefix + n, prefix))
    && |DirectAmong(m, ks, prefix)| == |names|
    && (forall i | 0 <= i < |names| ::
          IsDirect(m, prefix + names[i], prefix) && DirectAmong(m, ks, prefix)[i] == EntryOf(m, prefix, names[i]))
  }

  lemma {:induction false} NamesAmong(m: Store, ks: seq<Key>, prefix: Key) returns (names: seq<Key>)
    requires Ascending(ks)
    ensures NamesOf(m, ks, prefix, names)
  {
    if ks == [] {
      names := [];
    } else {
      names := NamesAmong(m, ks[1..], prefix);
      if IsDirect(m, ks[0], prefix) {
        NamesTake(m, ks, prefix, names);
        names := [ks[0][|prefix|..]] + names;
      } else {
        NamesSkip(m, ks, prefix, names);
      }
    }
  }

  lemma NamesSkip(m: Store, ks: seq<Key>, prefix: Key, rest: seq<Key>)
    requires ks != [] && !IsDirect(m, ks[0], prefix) && NamesOf(m, ks[1..], prefix, rest)
    ensures NamesOf(m, ks, prefix, rest)
  {
    assert forall k :: k in ks <==> k == ks[0] || k in ks[1..];
  }

  lemma NamesTake(m: Store, ks: seq<Key>, prefix: Key, rest: seq<Key>)
    requires Ascending(ks) && ks != [] && IsDirect(m, ks[0], prefix) && NamesOf(m, ks[1..], prefix, rest)
    ensures NamesOf(m, ks, prefix, [ks[0][|prefix|..]] + rest)
  {
    var n := ks[0][|prefix|..];
    assert ks[0] == prefix + n;
    NameInFront(ks, prefix, n, rest);
    var names := [n] + rest;
    forall x ensures x in names <==> prefix + x in ks && IsDirect(m, prefix + x, prefix) {
      assert x in names <==> x == n || x in rest;
    }
    var l := DirectAmong(m, ks, prefix);
    assert l == [EntryOf(m, prefix, n)] + DirectAmong(m, ks[1..], prefix);
    forall i | 0 <= i < |names|
      ensures IsDirect(m, prefix + names[i], prefix) && l[i] == EntryOf(m, prefix, names[i])
    {
      if i > 0 {
        assert names[i] == rest[i - 1];
      }
    }
  }

  /** The first flat key's name comes before the names of the others and belongs to no other key. */
  lemma NameInFront(ks: seq<Key>, prefix: Key, n: Key, rest: seq<Key>)
    requires Ascending(ks) && ks != [] && ks[0] == prefix + n
    requires Ascending(rest) && forall x | x in rest :: prefix + x in ks[1..]
    ensures Ascending([n] + rest)
    ensures forall x :: prefix + x in ks <==> x == n || prefix + x in ks[1..]
  {
    forall j | 0 <= j < |rest| ensures Less(n, rest[j]) {
      assert rest[j] in rest;
      LessUnderPrefix(prefix, n, rest[j]);
    }
    assert ks == [ks[0]] + ks[1..];
    forall x | prefix + x == ks[0] ensures x == n {
      assert x == (prefix + x)[|prefix|..];
    }
  }
}
